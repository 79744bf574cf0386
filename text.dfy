/**
 * The .NET string operations the codec and the identifier rely on: whitespace
 * tests, Trim, Replace of one character by nothing, the regular expression that
 * strips padding, ordinal lower-casing and Split on a one-character separator.
 */
module Text {
  import opened Wrappers

  /** Char.IsWhiteSpace: the characters of Unicode's White_Space property. */
  predicate IsWhiteSpace(c: char)
  {
    ('\t' <= c <= '\r') || c == ' ' || c == '\U{85}' || c == '\U{A0}' || c == '\U{1680}'
    || ('\U{2000}' <= c <= '\U{200A}') || c == '\U{2028}' || c == '\U{2029}'
    || c == '\U{202F}' || c == '\U{205F}' || c == '\U{3000}'
  }

  predicate AllWhiteSpace(s: string)
  {
    forall i :: 0 <= i < |s| ==> IsWhiteSpace(s[i])
  }

  predicate NoWhiteSpace(s: string)
  {
    forall i :: 0 <= i < |s| ==> !IsWhiteSpace(s[i])
  }

  /** string.IsNullOrWhiteSpace; `None` is `null`. */
  predicate IsNullOrWhiteSpace(s: Option<string>)
  {
    s.None? || AllWhiteSpace(s.value)
  }

  /** string.TrimStart(): leading whitespace removed (TrimStartSpec). */
  function TrimStart(s: string): string
  {
    if s != [] && IsWhiteSpace(s[0]) then TrimStart(s[1..]) else s
  }

  /** string.TrimEnd(): trailing whitespace removed (TrimEndSpec). */
  function TrimEnd(s: string): string
  {
    if s != [] && IsWhiteSpace(s[|s| - 1]) then TrimEnd(s[..|s| - 1]) else s
  }

  /** string.Trim(): leading and trailing whitespace removed. */
  function Trim(s: string): string
  {
    TrimEnd(TrimStart(s))
  }

  /** s.Replace(c, ""): every occurrence of c removed. */
  function RemoveAll(s: string, c: char): string
  {
    if s == [] then []
    else if s[0] == c then RemoveAll(s[1..], c)
    else [s[0]] + RemoveAll(s[1..], c)
  }

  /** The run of c at the end of s removed. */
  function StripTrailing(s: string, c: char): string
  {
    if s != [] && s[|s| - 1] == c then StripTrailing(s[..|s| - 1], c) else s
  }

  /**
   * Regex.Replace(s, "[=]*$", ""). Without the Multiline option, .NET's `$`
   * matches at the end and also just before a final '\n', so a run of '='
   * standing before a final newline is removed as well.
   */
  function StripPadding(s: string): string
  {
    if s != [] && s[|s| - 1] == '\n' then StripTrailing(s[..|s| - 1], '=') + "\n"
    else StripTrailing(s, '=')
  }

  predicate IsAsciiUpper(c: char)
  {
    'A' <= c <= 'Z'
  }

  function ToLowerAsciiChar(c: char): char
  {
    if IsAsciiUpper(c) then (c as int - 'A' as int + 'a' as int) as char else c
  }

  function ToUpperAsciiChar(c: char): char
  {
    if 'a' <= c <= 'z' then (c as int - 'a' as int + 'A' as int) as char else c
  }

  /** string.ToLower() on the ASCII letters. */
  function ToLowerAscii(s: string): string
  {
    seq(|s|, i requires 0 <= i < |s| => ToLowerAsciiChar(s[i]))
  }

  function ToUpperAscii(s: string): string
  {
    seq(|s|, i requires 0 <= i < |s| => ToUpperAsciiChar(s[i]))
  }

  /** a and b differ at most in the case of ASCII letters. */
  predicate SameUpToCase(a: string, b: string)
  {
    |a| == |b| && forall i :: 0 <= i < |a| ==> ToLowerAsciiChar(a[i]) == ToLowerAsciiChar(b[i])
  }

  predicate IsAsciiLetter(c: char)
  {
    'a' <= c <= 'z' || IsAsciiUpper(c)
  }

  /** The number of occurrences of c in s. */
  function Count(s: string, c: char): nat
  {
    multiset(s)[c]
  }

  /** s.Split(sep): the pieces between the separators, empty ones included. */
  function Split(s: string, sep: char): (parts: seq<string>)
    ensures |parts| >= 1
    ensures forall k :: 0 <= k < |parts| ==> sep !in parts[k]
  {
    if s == [] then [""]
    else
      var rest := Split(s[1..], sep);
      if s[0] == sep then [""] + rest
      else [[s[0]] + rest[0]] + rest[1..]
  }

  /** string.Join(sep, parts), the inverse of Split. */
  function Join(parts: seq<string>, sep: char): string
    requires |parts| >= 1
  {
    if |parts| == 1 then parts[0] else parts[0] + [sep] + Join(parts[1..], sep)
  }

  // ---------------------------------------------------------------------

  /** TrimStart removes a prefix of whitespace and stops at the first other character. */
  lemma {:induction false} TrimStartSpec(s: string)
    ensures |TrimStart(s)| <= |s| && TrimStart(s) == s[|s| - |TrimStart(s)|..]
    ensures TrimStart(s) == [] || !IsWhiteSpace(TrimStart(s)[0])
    ensures AllWhiteSpace(s[..|s| - |TrimStart(s)|])
  {
    if s != [] && IsWhiteSpace(s[0]) {
      TrimStartSpec(s[1..]);
      var r := TrimStart(s[1..]);
      assert s[..|s| - |r|] == [s[0]] + s[1..][..|s| - 1 - |r|];
    }
  }

  /** TrimEnd removes a suffix of whitespace and stops at the last other character. */
  lemma {:induction false} TrimEndSpec(s: string)
    ensures |TrimEnd(s)| <= |s| && TrimEnd(s) == s[..|TrimEnd(s)|]
    ensures TrimEnd(s) == [] || !IsWhiteSpace(TrimEnd(s)[|TrimEnd(s)| - 1])
    ensures AllWhiteSpace(s[|TrimEnd(s)|..])
  {
    if s != [] && IsWhiteSpace(s[|s| - 1]) {
      TrimEndSpec(s[..|s| - 1]);
      var r := TrimEnd(s[..|s| - 1]);
      assert s[|r|..] == s[..|s| - 1][|r|..] + [s[|s| - 1]];
    }
  }

  /** RemoveAll drops c and keeps every other character that occurs. */
  lemma {:induction false} RemoveAllSpec(s: string, c: char)
    ensures c !in RemoveAll(s, c)
    ensures forall x :: x != c ==> (x in RemoveAll(s, c) <==> x in s)
  {
    if s != [] {
      RemoveAllSpec(s[1..], c);
      assert s == [s[0]] + s[1..];
    }
  }

  /** StripTrailing removes the longest run of c at the end and no more. */
  lemma {:induction false} StripTrailingSpec(s: string, c: char)
    ensures |StripTrailing(s, c)| <= |s| && StripTrailing(s, c) == s[..|StripTrailing(s, c)|]
    ensures StripTrailing(s, c) == [] || StripTrailing(s, c)[|StripTrailing(s, c)| - 1] != c
    ensures forall i :: |StripTrailing(s, c)| <= i < |s| ==> s[i] == c
  {
    if s != [] && s[|s| - 1] == c {
      StripTrailingSpec(s[..|s| - 1], c);
    }
  }

  /** Split cuts at every separator and nowhere else: joining the parts gives s back. */
  lemma {:induction false} JoinSplit(s: string, sep: char)
    ensures Join(Split(s, sep), sep) == s
  {
    if s != [] {
      JoinSplit(s[1..], sep);
      var rest := Split(s[1..], sep);
      if s[0] != sep && |rest| > 1 {
        assert Split(s, sep)[1..] == rest[1..];
      }
    }
  }

  /** The number of parts is one more than the number of separators. */
  lemma {:induction false} SplitCount(s: string, sep: char)
    ensures |Split(s, sep)| == Count(s, sep) + 1
  {
    if s != [] {
      SplitCount(s[1..], sep);
      assert s == [s[0]] + s[1..];
      assert multiset(s) == multiset{s[0]} + multiset(s[1..]);
    }
  }

  lemma {:induction false} SplitNoSeparator(s: string, sep: char)
    requires sep !in s
    ensures Split(s, sep) == [s]
  {
    if s != [] {
      SplitNoSeparator(s[1..], sep);
      assert s == [s[0]] + s[1..];
    }
  }

  /** With exactly one separator, the parts are the text before and after it. */
  lemma {:induction false} SplitOnce(a: string, b: string, sep: char)
    requires sep !in a && sep !in b
    ensures Split(a + [sep] + b, sep) == [a, b]
  {
    if a == [] {
      assert a + [sep] + b == [sep] + b;
      assert ([sep] + b)[1..] == b;
      SplitNoSeparator(b, sep);
    } else {
      assert (a + [sep] + b)[1..] == a[1..] + [sep] + b;
      SplitOnce(a[1..], b, sep);
      assert a == [a[0]] + a[1..];
    }
  }

  /** Trim leaves a string alone when neither end is whitespace. */
  lemma TrimUnchanged(s: string)
    requires s == [] || (!IsWhiteSpace(s[0]) && !IsWhiteSpace(s[|s| - 1]))
    ensures Trim(s) == s
  {
  }

  lemma {:induction false} TrimStartPrefix(w: string, s: string)
    requires AllWhiteSpace(w)
    ensures TrimStart(w + s) == TrimStart(s)
  {
    if w != [] {
      assert (w + s)[1..] == w[1..] + s;
      TrimStartPrefix(w[1..], s);
    } else {
      assert w + s == s;
    }
  }

  lemma {:induction false} TrimEndSuffix(s: string, w: string)
    requires AllWhiteSpace(w)
    ensures TrimEnd(s + w) == TrimEnd(s)
  {
    if w != [] {
      assert (s + w)[..|s + w| - 1] == s + w[..|w| - 1];
      TrimEndSuffix(s, w[..|w| - 1]);
    } else {
      assert s + w == s;
    }
  }

  lemma {:induction false} TrimStartAppend(s: string, w: string)
    requires AllWhiteSpace(w)
    ensures TrimStart(s + w) == TrimStart(s) + w || (TrimStart(s) == [] && TrimStart(s + w) == [])
  {
    if s == [] {
      assert s + w == w;
      if w != [] {
        TrimStartPrefix(w, []);
        assert w + [] == w;
      }
    } else if IsWhiteSpace(s[0]) {
      assert (s + w)[1..] == s[1..] + w;
      TrimStartAppend(s[1..], w);
    }
  }

  /** Whitespace around s does not survive Trim. */
  lemma TrimSurrounded(w1: string, s: string, w2: string)
    requires AllWhiteSpace(w1) && AllWhiteSpace(w2)
    ensures Trim(w1 + s + w2) == Trim(s)
  {
    assert w1 + s + w2 == w1 + (s + w2);
    TrimStartPrefix(w1, s + w2);
    TrimStartAppend(s, w2);
    if TrimStart(s) == [] && TrimStart(s + w2) == [] {
    } else {
      TrimEndSuffix(TrimStart(s), w2);
    }
  }

  lemma {:induction false} RemoveAllUnchanged(s: string, c: char)
    requires c !in s
    ensures RemoveAll(s, c) == s
  {
    if s != [] {
      RemoveAllUnchanged(s[1..], c);
      assert s == [s[0]] + s[1..];
    }
  }

  lemma {:induction false} RemoveAllAppend(s: string, t: string, c: char)
    ensures RemoveAll(s + t, c) == RemoveAll(s, c) + RemoveAll(t, c)
  {
    if s == [] {
      assert s + t == t;
    } else {
      assert (s + t)[0] == s[0] && (s + t)[1..] == s[1..] + t;
      RemoveAllAppend(s[1..], t, c);
    }
  }

  lemma {:induction false} RemoveAllTwice(s: string, c: char)
    ensures RemoveAll(RemoveAll(s, c), c) == RemoveAll(s, c)
  {
    RemoveAllSpec(s, c);
    RemoveAllUnchanged(RemoveAll(s, c), c);
  }

  /** Appending a run of c to a string that does not end in c, then stripping it. */
  lemma {:induction false} StripTrailingAppended(s: string, n: nat, c: char)
    requires s == [] || s[|s| - 1] != c
    ensures StripTrailing(s + seq(n, _ => c), c) == s
  {
    if n > 0 {
      assert (s + seq(n, _ => c))[..|s| + n - 1] == s + seq(n - 1, _ => c);
      StripTrailingAppended(s, n - 1, c);
    } else {
      assert s + seq(n, _ => c) == s;
    }
  }

  lemma ToLowerAsciiUnchanged(s: string)
    requires forall i :: 0 <= i < |s| ==> !IsAsciiUpper(s[i])
    ensures ToLowerAscii(s) == s
  {
  }

  lemma {:induction false} StripTrailingRun(s: string, n: nat, c: char)
    ensures StripTrailing(s + seq(n, _ => c), c) == StripTrailing(s, c)
  {
    if n > 0 {
      assert (s + seq(n, _ => c))[..|s| + n - 1] == s + seq(n - 1, _ => c);
      StripTrailingRun(s, n - 1, c);
    } else {
      assert s + seq(n, _ => c) == s;
    }
  }

  // ---------------------------------------------------------------------
  // Letter case

  /** Two characters that agree up to case are the same character or both letters. */
  lemma CharCase(x: char, y: char)
    requires ToLowerAsciiChar(x) == ToLowerAsciiChar(y)
    ensures x == y || (IsAsciiLetter(x) && IsAsciiLetter(y))
    ensures IsWhiteSpace(x) <==> IsWhiteSpace(y)
  {
  }

  lemma SameUpToCaseAppend(a1: string, a2: string, b1: string, b2: string)
    requires SameUpToCase(a1, b1) && SameUpToCase(a2, b2)
    ensures SameUpToCase(a1 + a2, b1 + b2)
  {
    forall i | 0 <= i < |a1 + a2|
      ensures ToLowerAsciiChar((a1 + a2)[i]) == ToLowerAsciiChar((b1 + b2)[i])
    {
      if i >= |a1| {
        assert (a1 + a2)[i] == a2[i - |a1|] && (b1 + b2)[i] == b2[i - |a1|];
      }
    }
  }

  lemma SameUpToCaseSlice(a: string, b: string, i: nat, j: nat)
    requires SameUpToCase(a, b) && i <= j <= |a|
    ensures SameUpToCase(a[i..j], b[i..j])
  {
    forall k | 0 <= k < j - i
      ensures ToLowerAsciiChar(a[i..j][k]) == ToLowerAsciiChar(b[i..j][k])
    {
      assert a[i..j][k] == a[i + k] && b[i..j][k] == b[i + k];
    }
  }

  lemma {:induction false} TrimStartCase(a: string, b: string)
    requires SameUpToCase(a, b)
    ensures SameUpToCase(TrimStart(a), TrimStart(b))
  {
    if a != [] {
      CharCase(a[0], b[0]);
      if IsWhiteSpace(a[0]) {
        SameUpToCaseSlice(a, b, 1, |a|);
        TrimStartCase(a[1..], b[1..]);
      }
    }
  }

  lemma {:induction false} TrimEndCase(a: string, b: string)
    requires SameUpToCase(a, b)
    ensures SameUpToCase(TrimEnd(a), TrimEnd(b))
  {
    if a != [] {
      CharCase(a[|a| - 1], b[|b| - 1]);
      if IsWhiteSpace(a[|a| - 1]) {
        SameUpToCaseSlice(a, b, 0, |a| - 1);
        TrimEndCase(a[..|a| - 1], b[..|b| - 1]);
      }
    }
  }

  lemma TrimCase(a: string, b: string)
    requires SameUpToCase(a, b)
    ensures SameUpToCase(Trim(a), Trim(b))
  {
    TrimStartCase(a, b);
    TrimEndCase(TrimStart(a), TrimStart(b));
  }

  lemma {:induction false} RemoveAllCase(a: string, b: string, c: char)
    requires SameUpToCase(a, b) && !IsAsciiLetter(c)
    ensures SameUpToCase(RemoveAll(a, c), RemoveAll(b, c))
  {
    if a != [] {
      CharCase(a[0], b[0]);
      SameUpToCaseSlice(a, b, 1, |a|);
      RemoveAllCase(a[1..], b[1..], c);
      if a[0] != c {
        SameUpToCaseAppend([a[0]], RemoveAll(a[1..], c), [b[0]], RemoveAll(b[1..], c));
      }
    }
  }

  lemma {:induction false} StripTrailingCase(a: string, b: string, c: char)
    requires SameUpToCase(a, b) && !IsAsciiLetter(c)
    ensures SameUpToCase(StripTrailing(a, c), StripTrailing(b, c))
  {
    if a != [] {
      CharCase(a[|a| - 1], b[|b| - 1]);
      if a[|a| - 1] == c {
        SameUpToCaseSlice(a, b, 0, |a| - 1);
        StripTrailingCase(a[..|a| - 1], b[..|b| - 1], c);
      }
    }
  }

  lemma StripPaddingCase(a: string, b: string)
    requires SameUpToCase(a, b)
    ensures SameUpToCase(StripPadding(a), StripPadding(b))
  {
    if a != [] {
      CharCase(a[|a| - 1], b[|b| - 1]);
      if a[|a| - 1] == '\n' {
        SameUpToCaseSlice(a, b, 0, |a| - 1);
        StripTrailingCase(a[..|a| - 1], b[..|b| - 1], '=');
        SameUpToCaseAppend(StripTrailing(a[..|a| - 1], '='), "\n", StripTrailing(b[..|b| - 1], '='), "\n");
        return;
      }
    }
    StripTrailingCase(a, b, '=');
  }

  lemma ToLowerAsciiCase(a: string, b: string)
    requires SameUpToCase(a, b)
    ensures ToLowerAscii(a) == ToLowerAscii(b)
  {
  }

  lemma ToUpperAsciiSameUpToCase(s: string)
    ensures SameUpToCase(ToUpperAscii(s), s)
  {
  }

  /** A run of '=' after text that does not end in '=' or a newline is what the padding pattern removes. */
  lemma StripPaddingRun(s: string, n: nat)
    requires s == [] || (s[|s| - 1] != '=' && s[|s| - 1] != '\n')
    ensures StripPadding(s + seq(n, _ => '=')) == s
  {
    StripTrailingAppended(s, n, '=');
    if n > 0 {
      assert (s + seq(n, _ => '='))[|s| + n - 1] == '=';
    } else {
      assert s + seq(n, _ => '=') == s;
    }
  }
}
