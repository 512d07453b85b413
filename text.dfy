/** The few Python string operations the application relies on, on `string`
    (a sequence of Unicode characters): `str.lower`, `str.endswith`,
    `str.startswith`, `os.path.splitext`, `str.split()` with no argument,
    `str(n)` for a natural number and `int(token)`. */
module Text {
  import opened Wrappers

  // ---------------------------------------------------------------------
  // Character classes
  // ---------------------------------------------------------------------

  /** The characters Python's `str.isspace` accepts; `str.split()` with no
      argument separates on runs of these. */
  predicate IsSpace(c: char) {
    c == ' ' || ('\t' <= c <= '\r') || ('\U{1C}' <= c <= '\U{1F}') ||
    c == '\U{85}' || c == '\U{A0}' || c == '\U{1680}' ||
    ('\U{2000}' <= c <= '\U{200A}') || c == '\U{2028}' || c == '\U{2029}' ||
    c == '\U{202F}' || c == '\U{205F}' || c == '\U{3000}'
  }

  predicate IsDigit(c: char) {
    '0' <= c <= '9'
  }

  predicate AllDigits(s: string) {
    forall i :: 0 <= i < |s| ==> IsDigit(s[i])
  }

  predicate NoSpace(s: string) {
    forall i :: 0 <= i < |s| ==> !IsSpace(s[i])
  }

  // ---------------------------------------------------------------------
  // Case and affixes
  // ---------------------------------------------------------------------

  /** Lower-casing of one character, restricted to ASCII letters. */
  function LowerChar(c: char): char {
    if 'A' <= c <= 'Z' then (c as int + 32) as char else c
  }

  /** `s.lower()` on ASCII letters (`LowerMeaning`). */
  function Lower(s: string): (r: string)
    ensures |r| == |s|
  {
    seq(|s|, i requires 0 <= i < |s| => LowerChar(s[i]))
  }

  /** Lower-casing turns each ASCII capital into its small letter, leaves
      no capital, keeps every character that is not one, and changes
      nothing when done a second time. */
  lemma LowerMeaning(s: string)
    ensures forall i :: 0 <= i < |s| && 'A' <= s[i] <= 'Z' ==> Lower(s)[i] == (s[i] as int + 32) as char
    ensures forall i :: 0 <= i < |s| ==> !('A' <= Lower(s)[i] <= 'Z')
    ensures forall i :: 0 <= i < |s| && !('A' <= s[i] <= 'Z') ==> Lower(s)[i] == s[i]
    ensures Lower(Lower(s)) == Lower(s)
  {
  }

  /** `s.startswith(prefix)`. */
  predicate StartsWith(s: string, prefix: string) {
    |prefix| <= |s| && s[..|prefix|] == prefix
  }

  /** `s.endswith(suffix)`. */
  predicate EndsWith(s: string, suffix: string) {
    |suffix| <= |s| && s[|s| - |suffix|..] == suffix
  }

  /** `s` starts with `a` exactly when it is `a` followed by the rest of
      `s`, and ends with `a` exactly when it is the rest followed by `a`. */
  lemma AffixesMeaning(s: string, a: string)
    ensures StartsWith(s, a) <==> |a| <= |s| && s == a + s[|a|..]
    ensures EndsWith(s, a) <==> |a| <= |s| && s == s[..|s| - |a|] + a
  {
    if |a| <= |s| {
      assert s == s[..|a|] + s[|a|..];
      assert (a + s[|a|..])[..|a|] == a;
      assert s == s[..|s| - |a|] + s[|s| - |a|..];
      assert (s[..|s| - |a|] + a)[|s| - |a|..] == a;
    }
  }

  /** `s.rfind(c)`: the position of the last occurrence of `c`, or -1. */
  function LastIndexOf(s: string, c: char): (r: int)
    ensures -1 <= r < |s|
    ensures r >= 0 ==> s[r] == c
    ensures forall j :: r < j < |s| ==> s[j] != c
  {
    if s == [] then -1
    else if s[|s| - 1] == c then |s| - 1
    else LastIndexOf(s[..|s| - 1], c)
  }

  // ---------------------------------------------------------------------
  // os.path.splitext (POSIX flavour)
  // ---------------------------------------------------------------------

  /** The root that `os.path.splitext(p)[0]` returns: everything before the
      last '.', provided that dot comes after the last '/' and the part of
      the final path component before it is not made of dots only
      (so ".jpg" and "..png" are returned whole). */
  function SplitExtRoot(p: string): string {
    var sepIndex := LastIndexOf(p, '/');
    var dotIndex := LastIndexOf(p, '.');
    if dotIndex > sepIndex && exists j :: sepIndex + 1 <= j < dotIndex && p[j] != '.'
    then p[..dotIndex]
    else p
  }

  /** A name that ends in a four-character extension whose last three
      characters are not dots loses exactly those four characters. */
  lemma SplitExtRootDropsExtension(p: string)
    requires |p| >= 4 && p[|p| - 4] == '.'
    requires forall j :: |p| - 3 <= j < |p| ==> p[j] != '.' && p[j] != '/'
    requires '/' !in p[..|p| - 4]
    requires exists j :: 0 <= j < |p| - 4 && p[j] != '.'
    ensures SplitExtRoot(p) == p[..|p| - 4]
  {
    var sepIndex := LastIndexOf(p, '/');
    var dotIndex := LastIndexOf(p, '.');
    assert dotIndex == |p| - 4;
    var j :| 0 <= j < |p| - 4 && p[j] != '.';
    assert sepIndex + 1 <= j < dotIndex;
  }

  /** When everything before the extension is dots, the name is its own
      root: `os.path.splitext(".jpg")` is `(".jpg", "")`. */
  lemma SplitExtRootKeepsDotOnlyNames(p: string)
    requires |p| >= 4 && p[|p| - 4] == '.'
    requires forall j :: |p| - 3 <= j < |p| ==> p[j] != '.' && p[j] != '/'
    requires forall j :: 0 <= j < |p| - 4 ==> p[j] == '.'
    ensures SplitExtRoot(p) == p
  {
    var sepIndex := LastIndexOf(p, '/');
    var dotIndex := LastIndexOf(p, '.');
    assert dotIndex == |p| - 4;
  }

  // ---------------------------------------------------------------------
  // str.split() with no argument
  // ---------------------------------------------------------------------

  /** `s.rstrip()`: drops trailing whitespace. */
  function TrimEnd(s: string): (r: string)
    ensures |r| <= |s| && r == s[..|r|]
    ensures r == [] || !IsSpace(r[|r| - 1])
    ensures forall j :: |r| <= j < |s| ==> IsSpace(s[j])
  {
    if s != [] && IsSpace(s[|s| - 1]) then TrimEnd(s[..|s| - 1]) else s
  }

  /** The longest suffix of `s` that holds no whitespace. */
  function TrailingWord(s: string): (r: string)
    ensures |r| <= |s| && r == s[|s| - |r|..]
    ensures NoSpace(r)
    ensures |r| < |s| ==> IsSpace(s[|s| - |r| - 1])
  {
    if s == [] || IsSpace(s[|s| - 1]) then []
    else
      var init := s[..|s| - 1];
      var w := TrailingWord(init);
      assert init[|init| - |w|..] == s[|s| - |w| - 1..|s| - 1];
      w + [s[|s| - 1]]
  }

  /** `s.split()`: the maximal runs of non-whitespace characters, in order. */
  function Split(s: string): (tokens: seq<string>)
    ensures forall k :: 0 <= k < |tokens| ==> tokens[k] != [] && NoSpace(tokens[k])
    decreases |s|
  {
    var t := TrimEnd(s);
    if t == [] then []
    else
      var w := TrailingWord(t);
      Split(t[..|t| - |w|]) + [w]
  }

  lemma {:induction false} TrailingWordOfWord(w: string)
    requires NoSpace(w)
    ensures TrailingWord(w) == w
  {
    if w != [] {
      var init := w[..|w| - 1];
      assert NoSpace(init) by {
        forall i | 0 <= i < |init| ensures !IsSpace(init[i]) {
          assert init[i] == w[i];
        }
      }
      TrailingWordOfWord(init);
      assert init + [w[|w| - 1]] == w;
    }
  }

  /** A whitespace-free suffix preceded by whitespace is the trailing word. */
  lemma {:induction false} TrailingWordAfterSpace(s: string, w: string)
    requires |w| < |s| && s[|s| - |w|..] == w
    requires IsSpace(s[|s| - |w| - 1]) && NoSpace(w)
    ensures TrailingWord(s) == w
  {
    if w != [] {
      var n := |s| - 1;
      var s', w' := s[..n], w[..|w| - 1];
      assert s[n] == w[|w| - 1];
      assert NoSpace(w') by {
        forall i | 0 <= i < |w'| ensures !IsSpace(w'[i]) {
          assert w'[i] == w[i];
        }
      }
      assert s'[|s'| - |w'|..] == w' by {
        forall i | 0 <= i < |w'| ensures s'[|s'| - |w'|..][i] == w'[i] {
          assert s'[|s'| - |w'|..][i] == s[|s| - |w|..][i];
        }
      }
      assert s'[|s'| - |w'| - 1] == s[|s| - |w| - 1];
      TrailingWordAfterSpace(s', w');
      assert w' + [w[|w| - 1]] == w;
    }
  }

  /** A string ending in whitespace followed by a word splits into the
      tokens before that word, then the word. */
  lemma SplitLastWord(p: string, c: char, w: string)
    requires IsSpace(c) && w != [] && NoSpace(w)
    ensures Split(p + [c] + w) == Split(p + [c]) + [w]
  {
    var s := p + [c] + w;
    assert s[|s| - 1] == w[|w| - 1];
    assert TrimEnd(s) == s;
    assert s[|s| - |w|..] == w;
    assert s[|s| - |w| - 1] == c;
    TrailingWordAfterSpace(s, w);
    assert s[..|s| - |w|] == p + [c];
  }

  /** A single word followed by whitespace splits into that word. */
  lemma SplitWordThenSpace(a: string, c: char)
    requires a != [] && NoSpace(a) && IsSpace(c)
    ensures Split(a + [c]) == [a]
  {
    SplitIgnoresTrailingSpace(a, c);
    SplitOneWord(a);
  }

  /** Splitting a single word followed by one whitespace character and a
      second word gives the two words. */
  lemma SplitTwoWords(a: string, c: char, b: string)
    requires a != [] && NoSpace(a) && IsSpace(c) && b != [] && NoSpace(b)
    ensures Split(a + [c] + b) == [a, b]
  {
    SplitLastWord(a, c, b);
    SplitWordThenSpace(a, c);
  }

  /** Whitespace at the end of a string does not change its tokens. */
  lemma SplitIgnoresTrailingSpace(p: string, c: char)
    requires IsSpace(c)
    ensures Split(p + [c]) == Split(p)
  {
    assert (p + [c])[..|p|] == p;
    assert TrimEnd(p + [c]) == TrimEnd(p);
  }

  /** `sep.join(words)` for a one-character separator. */
  function JoinWords(words: seq<string>, sep: char): (s: string)
    ensures |words| == 1 ==> s == words[0]
  {
    if |words| <= 1 then (if words == [] then [] else words[0])
    else JoinWords(words[..|words| - 1], sep) + [sep] + words[|words| - 1]
  }

  /** Appending one whitespace character and a word appends that word to
      the tokens. */
  lemma SplitAppendWord(p: string, c: char, w: string)
    requires IsSpace(c) && w != [] && NoSpace(w)
    ensures Split(p + [c] + w) == Split(p) + [w]
  {
    SplitLastWord(p, c, w);
    SplitIgnoresTrailingSpace(p, c);
  }

  lemma InitLast<T>(s: seq<T>)
    requires s != []
    ensures s[..|s| - 1] + [s[|s| - 1]] == s
  {
  }

  /** A single word splits into itself. */
  lemma SplitOneWord(w: string)
    requires w != [] && NoSpace(w)
    ensures Split(w) == [w]
  {
    TrailingWordOfWord(w);
    assert TrimEnd(w) == w;
    assert w[..|w| - |w|] == [];
    assert TrimEnd([]) == [];
  }

  /** `str.split()` recovers exactly the words, in order, from any
      non-empty, whitespace-free words joined by one whitespace character,
      so its tokens are the maximal runs of non-whitespace characters. */
  lemma {:induction false} SplitJoinWords(words: seq<string>, sep: char)
    requires IsSpace(sep)
    requires forall k :: 0 <= k < |words| ==> words[k] != [] && NoSpace(words[k])
    ensures Split(JoinWords(words, sep)) == words
  {
    if |words| == 1 {
      SplitOneWord(words[0]);
    } else if |words| > 1 {
      var init := words[..|words| - 1];
      var last := words[|words| - 1];
      assert forall k :: 0 <= k < |init| ==> init[k] == words[k];
      SplitJoinWords(init, sep);
      var prefix := JoinWords(init, sep);
      SplitAppendWord(prefix, sep, last);
      assert JoinWords(words, sep) == prefix + [sep] + last;
      InitLast(words);
    }
  }

  // ---------------------------------------------------------------------
  // Decimal numerals: str(n) and int(token)
  // ---------------------------------------------------------------------

  function DigitChar(d: nat): (c: char)
    requires d < 10
    ensures IsDigit(c)
  {
    ('0' as int + d) as char
  }

  function DigitValue(c: char): nat
    requires IsDigit(c)
  {
    c as int - '0' as int
  }

  /** `str(n)`: the decimal numeral of `n`, without leading zeros. */
  function NatToString(n: nat): (s: string)
    ensures s != [] && AllDigits(s)
  {
    if n < 10 then [DigitChar(n)] else NatToString(n / 10) + [DigitChar(n % 10)]
  }

  /** The value of a string of decimal digits, most significant first. */
  function DigitsValue(s: string): nat
    requires AllDigits(s)
  {
    if s == [] then 0 else DigitsValue(s[..|s| - 1]) * 10 + DigitValue(s[|s| - 1])
  }

  /** `int(token)` on a token without whitespace: an optional sign followed
      by one or more ASCII digits; anything else raises ValueError, here
      `None`. */
  function ParseInt(s: string): Option<int> {
    if s != [] && (s[0] == '-' || s[0] == '+') then
      var body := s[1..];
      if body != [] && AllDigits(body) then
        var v: int := DigitsValue(body);
        Some(if s[0] == '-' then -v else v)
      else None
    else if s != [] && AllDigits(s) then Some(DigitsValue(s))
    else None
  }

  lemma {:induction false} DigitsValueOfNatToString(n: nat)
    ensures DigitsValue(NatToString(n)) == n
  {
    if n >= 10 {
      var s := NatToString(n / 10);
      DigitsValueOfNatToString(n / 10);
      assert (s + [DigitChar(n % 10)])[..|s|] == s;
    }
  }

  /** `int(str(n)) == n`. */
  lemma ParseIntOfNatToString(n: nat)
    ensures ParseInt(NatToString(n)) == Some(n)
  {
    DigitsValueOfNatToString(n);
  }

  /** `str` is injective on naturals. */
  lemma NatToStringInjective(m: nat, n: nat)
    requires NatToString(m) == NatToString(n)
    ensures m == n
  {
    ParseIntOfNatToString(m);
    ParseIntOfNatToString(n);
  }
}
