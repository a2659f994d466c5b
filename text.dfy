/** The string operations `clean_file` and `isNotBlank` are built from:
    Python's `str.strip`, `str.lower`, `str.split`, `''.join` and
    `' '.join`, and the `[^a-zA-Z]` substitution.  Whitespace is the ASCII
    part of Python's `str.isspace` (which Kotlin's `isWhitespace` agrees
    with): tab, line feed, vertical tab, form feed, carriage return, the four
    separators 0x1C-0x1F and space. */
module Text {

  predicate IsSpace(c: char)
  {
    c == ' ' || '\t' <= c <= '\r' || '\U{1C}' <= c <= '\U{1F}'
  }

  /** `[a-zA-Z]` */
  predicate IsLetter(c: char)
  {
    'a' <= c <= 'z' || 'A' <= c <= 'Z'
  }

  predicate IsLowerLetter(c: char)
  {
    'a' <= c <= 'z'
  }

  /** A token `split` can return: non-empty, without whitespace. */
  predicate IsWord(w: string)
  {
    w != [] && forall k :: 0 <= k < |w| ==> !IsSpace(w[k])
  }

  /** A token of the cleaned text: non-empty, lowercase ASCII letters only. */
  predicate IsLowerWord(w: string)
  {
    w != [] && forall k :: 0 <= k < |w| ==> IsLowerLetter(w[k])
  }

  predicate StartsWith(s: string, prefix: string)
  {
    |prefix| <= |s| && s[..|prefix|] == prefix
  }

  /** Leading whitespace removed: a suffix of `s` that does not start with
      whitespace, everything before it being whitespace. */
  function StripLeft(s: string): (r: string)
    ensures |r| <= |s| && r == s[|s| - |r|..]
    ensures r == [] || !IsSpace(r[0])
    ensures forall k :: 0 <= k < |s| - |r| ==> IsSpace(s[k])
  {
    if s != [] && IsSpace(s[0]) then StripLeft(s[1..]) else s
  }

  /** Trailing whitespace removed: a prefix of `s` that does not end with
      whitespace, everything after it being whitespace. */
  function StripRight(s: string): (r: string)
    ensures |r| <= |s| && r == s[..|r|]
    ensures r == [] || !IsSpace(r[|r| - 1])
    ensures forall k :: |r| <= k < |s| ==> IsSpace(s[k])
  {
    if s != [] && IsSpace(s[|s| - 1]) then StripRight(s[..|s| - 1]) else s
  }

  /** `s.strip()`: neither starts nor ends with whitespace (see `StripSlice`
      for what it is cut from). */
  function Strip(s: string): (r: string)
    ensures |r| <= |s|
    ensures r == [] || (!IsSpace(r[0]) && !IsSpace(r[|r| - 1]))
  {
    StripRight(StripLeft(s))
  }

  /** `s.strip()` is the slice of `s` between its leading and its trailing
      whitespace. */
  lemma StripSlice(s: string)
    ensures |s| - |StripLeft(s)| + |Strip(s)| <= |s|
    ensures forall k :: 0 <= k < |Strip(s)| ==> Strip(s)[k] == s[|s| - |StripLeft(s)| + k]
    ensures forall k :: 0 <= k < |s| - |StripLeft(s)| ==> IsSpace(s[k])
    ensures forall k :: |s| - |StripLeft(s)| + |Strip(s)| <= k < |s| ==> IsSpace(s[k])
  {
    forall k | 0 <= k < |Strip(s)|
      ensures Strip(s)[k] == s[|s| - |StripLeft(s)| + k]
    {
      StripChar(s, k);
    }
    StripTrailing(s);
  }

  /** Character `k` of `s.strip()` is a character of `s`. */
  lemma StripChar(s: string, k: nat)
    requires k < |Strip(s)|
    ensures |s| - |StripLeft(s)| + k < |s|
    ensures Strip(s)[k] == s[|s| - |StripLeft(s)| + k]
  {
    var l := StripLeft(s);
    var r := StripRight(l);
    assert r[k] == l[k];
  }

  /** What follows `s.strip()` in `s` is whitespace. */
  lemma StripTrailing(s: string)
    ensures forall k :: |s| - |StripLeft(s)| + |Strip(s)| <= k < |s| ==> IsSpace(s[k])
  {
    var l := StripLeft(s);
    var i := |s| - |l|;
    var r := StripRight(l);
    assert r == Strip(s);
    forall k | i + |r| <= k < |s|
      ensures IsSpace(s[k])
    {
      var j := k - i;
      assert IsSpace(l[j]);
      assert l[j] == s[k];
    }
  }

  /** Stripping twice strips nothing more. */
  lemma StripIdempotent(s: string)
    ensures Strip(Strip(s)) == Strip(s)
  {
    var r := Strip(s);
    assert StripLeft(r) == r;
    if r != [] {
      assert StripRight(r) == r;
    }
  }

  /** A line as `readlines()` returns it: a line feed can only be its last
      character. */
  predicate IsReadLine(line: string)
  {
    forall k :: 0 <= k < |line| - 1 ==> line[k] != '\n'
  }

  /** A stripped `readlines()` line holds no line feed at all. */
  lemma StripReadLine(line: string)
    requires IsReadLine(line)
    ensures '\n' !in Strip(line)
  {
    var r := Strip(line);
    var i := |line| - |StripLeft(line)|;
    forall m | 0 <= m < |r|
      ensures r[m] != '\n'
    {
      StripChar(line, m);
      if i + m == |line| - 1 {
        assert m == |r| - 1;
      }
    }
  }

  /** `str.isspace` over a whole string, as Kotlin's `isBlank()`: empty or
      only whitespace. */
  predicate IsBlank(s: string)
    ensures IsBlank(s) <==> Strip(s) == ""
  {
    forall k :: 0 <= k < |s| ==> IsSpace(s[k])
  }

  /** `str.lower()` on the letters the cleaned text can hold (ASCII). */
  function ToLower(c: char): (l: char)
    ensures IsLetter(c) ==> IsLowerLetter(l)
    ensures !IsLetter(c) ==> l == c
  {
    if 'A' <= c <= 'Z' then (c as int + 32) as char else c
  }

  function Lower(s: string): (r: string)
    ensures |r| == |s| && forall i :: 0 <= i < |s| ==> r[i] == ToLower(s[i])
  {
    seq(|s|, i requires 0 <= i < |s| => ToLower(s[i]))
  }

  /** `re.sub('[^a-zA-Z]', ' ', s)`: every character that is not an ASCII
      letter becomes a space. */
  function MaskNonLetters(s: string): (r: string)
    ensures |r| == |s| && forall i :: 0 <= i < |s| ==> r[i] == if IsLetter(s[i]) then s[i] else ' '
  {
    seq(|s|, i requires 0 <= i < |s| => if IsLetter(s[i]) then s[i] else ' ')
  }

  /** The longest prefix of `s` without whitespace. */
  function WordPrefix(s: string): (w: string)
    ensures |w| <= |s| && w == s[..|w|]
    ensures forall k :: 0 <= k < |w| ==> !IsSpace(w[k])
    ensures |w| < |s| ==> IsSpace(s[|w|])
  {
    if s == [] || IsSpace(s[0]) then [] else [s[0]] + WordPrefix(s[1..])
  }

  /** `s.split()`: the maximal runs of non-whitespace, in order. */
  function Split(s: string): (words: seq<string>)
    ensures forall i :: 0 <= i < |words| ==> IsWord(words[i])
    decreases |s|
  {
    var t := StripLeft(s);
    if t == [] then []
    else
      var w := WordPrefix(t);
      [w] + Split(t[|w|..])
  }

  /** Whitespace and lowercase letters only. */
  predicate LowerOrSpace(s: string)
  {
    forall k :: 0 <= k < |s| ==> IsSpace(s[k]) || IsLowerLetter(s[k])
  }

  lemma LowerOrSpaceSuffix(s: string, a: nat)
    requires a <= |s| && LowerOrSpace(s)
    ensures LowerOrSpace(s[a..])
  {
    forall k | 0 <= k < |s| - a
      ensures IsSpace(s[a..][k]) || IsLowerLetter(s[a..][k])
    {
      assert s[a..][k] == s[a + k];
    }
  }

  predicate AllLowerWords(words: seq<string>)
  {
    forall i :: 0 <= i < |words| ==> IsLowerWord(words[i])
  }

  lemma AllLowerWordsCons(w: string, rest: seq<string>)
    requires IsLowerWord(w) && AllLowerWords(rest)
    ensures AllLowerWords([w] + rest)
  {
    forall i | 0 < i <= |rest|
      ensures IsLowerWord(([w] + rest)[i])
    {
      assert ([w] + rest)[i] == rest[i - 1];
    }
  }

  /** A text whose only non-whitespace characters are lowercase letters
      splits into lowercase words. */
  lemma {:induction false} SplitLowerWords(s: string)
    requires LowerOrSpace(s)
    ensures AllLowerWords(Split(s))
    decreases |s|
  {
    var t := StripLeft(s);
    if t != [] {
      LowerOrSpaceSuffix(s, |s| - |t|);
      var w := WordPrefix(t);
      var u := t[|w|..];
      assert IsLowerWord(w) by {
        assert w != [] by {
          assert !IsSpace(t[0]);
        }
        forall k | 0 <= k < |w|
          ensures IsLowerLetter(w[k])
        {
          assert w[k] == t[k];
        }
      }
      LowerOrSpaceSuffix(t, |w|);
      SplitLowerWords(u);
      SplitStripLeft(s);
      SplitFirst(t);
      AllLowerWordsCons(w, Split(u));
    }
  }

  /** `re.sub('[^a-zA-Z]', ' ', text).lower()`: letters lowercased, every
      other character a space. */
  function Normalize(text: string): (n: string)
    ensures |n| == |text|
    ensures forall i :: 0 <= i < |text| ==> if IsLetter(text[i]) then n[i] == ToLower(text[i]) else n[i] == ' '
  {
    Lower(MaskNonLetters(text))
  }

  /** The tokenising expression of `clean_file`:
      `re.sub('[^a-zA-Z]', ' ', text).lower().split()`. */
  function Tokenize(text: string): (tokens: seq<string>)
    ensures forall i :: 0 <= i < |tokens| ==> IsLowerWord(tokens[i])
  {
    var n := Normalize(text);
    SplitLowerWords(n);
    Split(n)
  }

  /** The suffix of `s` from its first ASCII letter on. */
  function SkipNonLetters(s: string): (r: string)
    ensures |r| <= |s| && r == s[|s| - |r|..]
    ensures r == [] || IsLetter(r[0])
    ensures forall k :: 0 <= k < |s| - |r| ==> !IsLetter(s[k])
  {
    if s != [] && !IsLetter(s[0]) then
      var r := SkipNonLetters(s[1..]);
      assert forall k :: 1 <= k < |s| - |r| ==> s[k] == s[1..][k - 1];
      r
    else s
  }

  /** The longest prefix of `s` made of ASCII letters. */
  function LetterPrefix(s: string): (w: string)
    ensures |w| <= |s| && w == s[..|w|]
    ensures forall k :: 0 <= k < |w| ==> IsLetter(w[k])
    ensures |w| < |s| ==> !IsLetter(s[|w|])
  {
    if s == [] || !IsLetter(s[0]) then [] else [s[0]] + LetterPrefix(s[1..])
  }

  /** Lowering a non-empty run of letters gives a lowercase word. */
  lemma LowerLetters(w: string)
    requires w != [] && forall k :: 0 <= k < |w| ==> IsLetter(w[k])
    ensures IsLowerWord(Lower(w))
  {
  }

  /** Reference reading of the tokeniser: the maximal runs of ASCII letters
      of `text`, in order, lowercased. */
  function LetterRuns(text: string): (runs: seq<string>)
    ensures forall i :: 0 <= i < |runs| ==> IsLowerWord(runs[i])
    decreases |text|
  {
    var t := SkipNonLetters(text);
    if t == [] then []
    else
      var w := LetterPrefix(t);
      assert w != [] by {
        assert IsLetter(t[0]);
      }
      LowerLetters(w);
      [Lower(w)] + LetterRuns(t[|w|..])
  }

  /** Masking and lowering commute with slicing. */
  lemma NormalizeSlice(s: string, a: nat, b: nat)
    requires a <= b <= |s|
    ensures Normalize(s)[a..b] == Normalize(s[a..b])
  {
  }

  lemma NormalizeSuffix(s: string, a: nat)
    requires a <= |s|
    ensures Normalize(s)[a..] == Normalize(s[a..])
  {
    NormalizeSlice(s, a, |s|);
    assert s[a..|s|] == s[a..];
  }

  /** After masking, a character is whitespace exactly where the text had no letter. */
  lemma NormalizeSpace(s: string, i: nat)
    requires i < |s|
    ensures IsSpace(Normalize(s)[i]) <==> !IsLetter(s[i])
  {
  }

  lemma {:induction false} SkipMatches(s: string)
    ensures |StripLeft(Normalize(s))| == |SkipNonLetters(s)|
    decreases |s|
  {
    if s != [] {
      var u := Normalize(s);
      NormalizeSpace(s, 0);
      if !IsLetter(s[0]) {
        NormalizeSlice(s, 1, |s|);
        assert u[1..] == Normalize(s[1..]);
        SkipMatches(s[1..]);
      }
    }
  }

  lemma {:induction false} PrefixMatches(t: string)
    ensures |WordPrefix(Normalize(t))| == |LetterPrefix(t)|
    decreases |t|
  {
    if t != [] {
      var u := Normalize(t);
      NormalizeSpace(t, 0);
      if IsLetter(t[0]) {
        NormalizeSlice(t, 1, |t|);
        assert u[1..] == Normalize(t[1..]);
        PrefixMatches(t[1..]);
      }
    }
  }

  /** The tokens of `clean_file` are exactly the maximal letter runs of the
      text, lowercased, in order. */
  /** The characters before the first letter tokenise to nothing. */
  lemma SkipBeforeTokens(text: string)
    ensures Tokenize(text) == Tokenize(SkipNonLetters(text))
  {
    var t := SkipNonLetters(text);
    calc {
      Tokenize(text);
      Split(Normalize(text));
      { SplitStripLeft(Normalize(text)); }
      Split(StripLeft(Normalize(text)));
      { SkipMatches(text); NormalizeSuffix(text, |text| - |t|); }
      Split(Normalize(t));
    }
  }

  /** Leading whitespace changes nothing `split` returns. */
  lemma SplitStripLeft(u: string)
    ensures Split(u) == Split(StripLeft(u))
  {
    var l := StripLeft(u);
    assert StripLeft(l) == l;
  }

  /** A text starting with a letter yields its first letter run, lowercased,
      then the tokens of the rest. */
  lemma FirstRunToken(t: string)
    requires t != [] && IsLetter(t[0])
    ensures Tokenize(t) == [Lower(LetterPrefix(t))] + Tokenize(t[|LetterPrefix(t)|..])
  {
    var u := Normalize(t);
    var w := LetterPrefix(t);
    var p := WordPrefix(u);
    calc {
      Tokenize(t);
      Split(u);
      { NormalizeSpace(t, 0); SplitFirst(u); }
      [p] + Split(u[|p|..]);
      { PrefixMatches(t); }
      [p] + Split(u[|w|..]);
      { NormalizeSuffix(t, |w|); }
      [p] + Tokenize(t[|w|..]);
      { PrefixMatches(t); NormalizeSlice(t, 0, |w|); }
      [Normalize(w)] + Tokenize(t[|w|..]);
      { NormalizeLetters(w); }
      [Lower(w)] + Tokenize(t[|w|..]);
    }
  }

  /** A run of letters is only lowered. */
  lemma NormalizeLetters(w: string)
    requires forall k :: 0 <= k < |w| ==> IsLetter(w[k])
    ensures Normalize(w) == Lower(w)
  {
    assert MaskNonLetters(w) == w;
  }

  /** A text starting with a non-space splits into its first word and the
      words of the rest. */
  lemma SplitFirst(u: string)
    requires u != [] && !IsSpace(u[0])
    ensures Split(u) == [WordPrefix(u)] + Split(u[|WordPrefix(u)|..])
  {
  }

  /** The tokens of `clean_file` are exactly the maximal letter runs of the
      text, lowercased, in order. */
  lemma {:induction false} TokenizeIsLetterRuns(text: string)
    ensures Tokenize(text) == LetterRuns(text)
    decreases |text|
  {
    var t := SkipNonLetters(text);
    SkipBeforeTokens(text);
    if t != [] {
      var w := LetterPrefix(t);
      FirstRunToken(t);
      TokenizeIsLetterRuns(t[|w|..]);
    }
  }

  /** A text without ASCII letters has no tokens. */
  lemma NoLettersNoRuns(text: string)
    requires forall k :: 0 <= k < |text| ==> !IsLetter(text[k])
    ensures LetterRuns(text) == []
  {
  }

  /** `''.join(parts)` and, on lists, repeated `+=`: the parts concatenated
      in order with nothing between them. */
  function Flatten<T>(parts: seq<seq<T>>): (all: seq<T>)
    ensures |all| == SumLengths(parts)
  {
    if parts == [] then [] else Flatten(parts[..|parts| - 1]) + parts[|parts| - 1]
  }

  lemma {:induction false} FlattenAppend<T>(a: seq<seq<T>>, b: seq<seq<T>>)
    ensures Flatten(a + b) == Flatten(a) + Flatten(b)
    decreases |b|
  {
    if b != [] {
      var b0 := b[..|b| - 1];
      assert (a + b)[..|a + b| - 1] == a + b0;
      assert (a + b)[|a + b| - 1] == b[|b| - 1];
      FlattenAppend(a, b0);
    } else {
      assert a + b == a;
    }
  }

  lemma FlattenPair<T>(a: seq<T>, b: seq<T>)
    ensures Flatten([a, b]) == a + b
  {
    assert [a, b][..1] == [a];
    assert [a][..0] == [];
  }

  function SumLengths<T>(parts: seq<seq<T>>): nat
  {
    if parts == [] then 0 else SumLengths(parts[..|parts| - 1]) + |parts[|parts| - 1]|
  }

  /** The lengths can as well be summed from the front. */
  lemma {:induction false} SumLengthsFirst<T>(parts: seq<seq<T>>)
    requires parts != []
    ensures SumLengths(parts) == |parts[0]| + SumLengths(parts[1..])
    decreases |parts|
  {
    if |parts| > 1 {
      var init := parts[..|parts| - 1];
      assert init[1..] == parts[1..][..|parts[1..]| - 1];
      SumLengthsFirst(init);
    } else {
      assert parts[1..] == [];
    }
  }

  /** `' '.join(words)`: the words in order with one space between
      neighbours, so a non-empty list gives its first word followed by the
      rest and one character more than the words have, per gap. */
  function JoinSpaces(words: seq<string>): (s: string)
    ensures words == [] ==> s == ""
    ensures words != [] ==> StartsWith(s, words[0]) && |s| == SumLengths(words) + |words| - 1
  {
    if words == [] then ""
    else if |words| == 1 then words[0]
    else
      SumLengthsFirst(words);
      words[0] + " " + JoinSpaces(words[1..])
  }

  /** What `' '.join` of lowercase tokens looks like: lowercase letters and
      single spaces, no space at either end and never two in a row. */
  predicate IsCanonical(s: string)
  {
    && (forall i :: 0 <= i < |s| ==> IsLowerLetter(s[i]) || s[i] == ' ')
    && (s != [] ==> s[0] != ' ' && s[|s| - 1] != ' ')
    && (forall i :: 0 <= i < |s| - 1 ==> s[i] != ' ' || s[i + 1] != ' ')
  }

  lemma {:induction false} JoinCanonical(words: seq<string>)
    requires forall i :: 0 <= i < |words| ==> IsLowerWord(words[i])
    ensures IsCanonical(JoinSpaces(words))
    ensures words != [] ==> JoinSpaces(words) != []
    decreases |words|
  {
    if |words| > 1 {
      var rest := JoinSpaces(words[1..]);
      JoinCanonical(words[1..]);
      var s := words[0] + " " + rest;
      assert s == JoinSpaces(words);
      forall i | 0 <= i < |s| - 1
        ensures s[i] != ' ' || s[i + 1] != ' '
      {
        if i >= |words[0]| + 1 {
          assert s[i] == rest[i - |words[0]| - 1];
          assert s[i + 1] == rest[i - |words[0]|];
        }
      }
    }
  }

  /** Splitting a word followed by whitespace (or by nothing) yields that
      word as the first prefix. */
  lemma {:induction false} WordPrefixOfWord(w: string, rest: string)
    requires forall k :: 0 <= k < |w| ==> !IsSpace(w[k])
    requires rest == [] || IsSpace(rest[0])
    ensures WordPrefix(w + rest) == w
    decreases |w|
  {
    if w != [] {
      assert (w + rest)[1..] == w[1..] + rest;
      WordPrefixOfWord(w[1..], rest);
    }
  }

  /** `' '.join` and `split()` are inverse on words: `split` recovers the
      token list from the joined text. */
  lemma {:induction false} SplitJoin(words: seq<string>)
    requires forall i :: 0 <= i < |words| ==> IsWord(words[i])
    ensures Split(JoinSpaces(words)) == words
    decreases |words|
  {
    if |words| == 1 {
      calc {
        Split(JoinSpaces(words));
        Split(words[0]);
        { SplitWord(words[0]); }
        [words[0]];
        words;
      }
    } else if words != [] {
      var rest := JoinSpaces(words[1..]);
      calc {
        Split(JoinSpaces(words));
        { assert JoinSpaces(words) == words[0] + (" " + rest); }
        Split(words[0] + (" " + rest));
        { SplitWordThen(words[0], rest); }
        [words[0]] + Split(rest);
        { SplitJoin(words[1..]); }
        [words[0]] + words[1..];
        words;
      }
    }
  }

  /** A single word splits to itself. */
  lemma SplitWord(w: string)
    requires IsWord(w)
    ensures Split(w) == [w]
  {
    SplitFirst(w);
    WordPrefixOfWord(w, []);
    assert w + [] == w;
    assert w[|w|..] == [];
  }

  /** A word, a space and some text split into the word and the words of
      the text. */
  lemma SplitWordThen(w: string, rest: string)
    requires IsWord(w)
    ensures Split(w + (" " + rest)) == [w] + Split(rest)
  {
    var s := w + (" " + rest);
    calc {
      Split(s);
      { SplitFirst(s); WordPrefixOfWord(w, " " + rest); }
      [w] + Split(s[|w|..]);
      { assert s[|w|..] == " " + rest; }
      [w] + Split(" " + rest);
      { SplitLeadingSpace(rest); }
      [w] + Split(rest);
    }
  }

  /** A leading space changes nothing `split` returns. */
  lemma SplitLeadingSpace(r: string)
    ensures Split(" " + r) == Split(r)
  {
    assert StripLeft(" " + r) == StripLeft(r) by {
      assert (" " + r)[1..] == r;
    }
  }
}
