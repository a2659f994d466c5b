/** The per-line part of `clean_file`, the same in `training.py` and in the
    Flask service: each line read by `readlines()` is stripped and put
    through seven substitutions that blank it when it starts like a comment;
    the surviving lines are then joined with nothing between them. */
module CommentLines {
  import opened Text

  /** The line starts with one of `prefixes`. */
  predicate StartsWithAny(s: string, prefixes: seq<string>)
  {
    prefixes != [] && (StartsWith(s, prefixes[0]) || StartsWithAny(s, prefixes[1..]))
  }

  /** One `re.sub(r'(?m)^(p|q...).*\n?', '', s)` on a stripped line. With no
      line feed in `s`, `^` only matches at its start and `.*` then runs to
      its end, so the line is blanked exactly when it starts with one of the
      prefixes, and is left as it is otherwise. */
  function DropIfPrefixed(s: string, prefixes: seq<string>): (r: string)
    requires '\n' !in s
    ensures r == "" || r == s
    ensures StartsWithAny(s, prefixes) ==> r == ""
    ensures s != "" && r == "" ==> StartsWithAny(s, prefixes)
  {
    if StartsWithAny(s, prefixes) then "" else s
  }

  // The seven prefixes that mark a comment line: an asterisk, an opening
  // parenthesis and asterisk, a slash and asterisk, `#`, two backslashes,
  // `<--` and two slashes.
  predicate IsCommentLine(s: string)
  {
    || StartsWith(s, "*") || StartsWith(s, "(*") || StartsWith(s, "/*")
    || StartsWith(s, "#") || StartsWith(s, "\\\\") || StartsWith(s, "<--")
    || StartsWith(s, "//")
  }

  /** What one line contributes: nothing for a comment line, its stripped
      text otherwise. */
  function CleanLine(line: string): (r: string)
    ensures r == "" || r == Strip(line)
    ensures r != "" ==> !IsCommentLine(r) && !IsSpace(r[0]) && !IsSpace(r[|r| - 1])
    ensures !IsCommentLine(Strip(line)) ==> r == Strip(line)
  {
    var s := Strip(line);
    if IsCommentLine(s) then "" else s
  }

  /** The contributions of all lines, in order. */
  function CleanedLines(file: seq<string>): seq<string>
  {
    seq(|file|, i requires 0 <= i < |file| => CleanLine(file[i]))
  }

  /** `''.join(file_cleaned)` */
  function JoinedText(file: seq<string>): string
  {
    Flatten(CleanedLines(file))
  }

  /** The tokens `clean_file` returns for `file`. */
  function FileTokens(file: seq<string>): seq<string>
  {
    LetterRuns(JoinedText(file))
  }

  predicate AreReadLines(file: seq<string>)
  {
    forall i :: 0 <= i < |file| ==> IsReadLine(file[i])
  }

  lemma PrefixGroups(s: string)
    ensures StartsWithAny(s, ["*", "(*"]) <==> StartsWith(s, "*") || StartsWith(s, "(*")
    ensures StartsWithAny(s, ["/*", "*"]) <==> StartsWith(s, "/*") || StartsWith(s, "*")
    ensures StartsWithAny(s, ["#"]) <==> StartsWith(s, "#")
    ensures StartsWithAny(s, ["\\\\"]) <==> StartsWith(s, "\\\\")
    ensures StartsWithAny(s, ["<--"]) <==> StartsWith(s, "<--")
    ensures StartsWithAny(s, ["//"]) <==> StartsWith(s, "//")
  {
    StartsWithOne(s, "(*");
    StartsWithOne(s, "*");
    StartsWithOne(s, "#");
    StartsWithOne(s, "\\\\");
    StartsWithOne(s, "<--");
    StartsWithOne(s, "//");
    assert ["*", "(*"][1..] == ["(*"];
    assert ["/*", "*"][1..] == ["*"];
  }

  lemma StartsWithOne(s: string, p: string)
    ensures StartsWithAny(s, [p]) <==> StartsWith(s, p)
  {
    assert [p][1..] == [];
  }

  /** One pass of the loop body: the previous pass left the stripped line,
      or nothing once some earlier pattern matched; stripping that again and
      substituting blanks it exactly when this pattern matches too. */
  lemma PassStep(line: string, prev: string, matched: bool, prefixes: seq<string>)
    requires IsReadLine(line)
    requires prev == if matched then "" else Strip(line)
    ensures '\n' !in Strip(prev)
    ensures DropIfPrefixed(Strip(prev), prefixes)
      == if matched || StartsWithAny(Strip(line), prefixes) then "" else Strip(line)
  {
    StripReadLine(line);
    StripIdempotent(line);
    if matched {
      assert Strip(prev) == "";
    } else {
      assert Strip(prev) == Strip(line);
    }
  }

  /** The body of the `for line in file` loop: seven times, the line is
      stripped and blanked if it starts with one of that pass's prefixes.
      What is left is the line's contribution. */
  method CleanOneLine(raw: string) returns (line: string)
    requires IsReadLine(raw)
    ensures line == CleanLine(raw)
  {
    ghost var matched := false;
    StripReadLine(raw);
    line := DropIfPrefixed(Strip(raw), ["*", "(*"]);
    matched := matched || StartsWithAny(Strip(raw), ["*", "(*"]);
    PassStep(raw, line, matched, ["/*", "*"]);
    line := DropIfPrefixed(Strip(line), ["/*", "*"]);
    matched := matched || StartsWithAny(Strip(raw), ["/*", "*"]);
    PassStep(raw, line, matched, ["/*", "*"]);
    line := DropIfPrefixed(Strip(line), ["/*", "*"]);
    PassStep(raw, line, matched, ["#"]);
    line := DropIfPrefixed(Strip(line), ["#"]);
    matched := matched || StartsWithAny(Strip(raw), ["#"]);
    PassStep(raw, line, matched, ["\\\\"]);
    line := DropIfPrefixed(Strip(line), ["\\\\"]);
    matched := matched || StartsWithAny(Strip(raw), ["\\\\"]);
    PassStep(raw, line, matched, ["<--"]);
    line := DropIfPrefixed(Strip(line), ["<--"]);
    matched := matched || StartsWithAny(Strip(raw), ["<--"]);
    PassStep(raw, line, matched, ["//"]);
    line := DropIfPrefixed(Strip(line), ["//"]);
    matched := matched || StartsWithAny(Strip(raw), ["//"]);
    PrefixGroups(Strip(raw));
  }

  /** `for line in file: ... file_cleaned.append(line)`: each line's
      contribution, in order. */
  method CleanLines(file: seq<string>) returns (cleaned: seq<string>)
    requires AreReadLines(file)
    ensures cleaned == CleanedLines(file)
  {
    cleaned := [];
    for i := 0 to |file|
      invariant cleaned == CleanedLines(file[..i])
    {
      var line := CleanOneLine(file[i]);
      CleanedLinesSnoc(file, i);
      cleaned := cleaned + [line];
    }
    assert file[..|file|] == file;
  }

  /** One more line adds its contribution at the end. */
  lemma CleanedLinesSnoc(file: seq<string>, i: nat)
    requires i < |file|
    ensures CleanedLines(file[..i + 1]) == CleanedLines(file[..i]) + [CleanLine(file[i])]
  {
    assert file[..i + 1] == file[..i] + [file[i]];
    CleanedLinesAppend(file[..i], [file[i]]);
  }

  /** The text of two runs of lines is the text of the first followed by
      that of the second. */
  lemma JoinedConcat(a: seq<string>, b: seq<string>)
    ensures JoinedText(a + b) == JoinedText(a) + JoinedText(b)
  {
    assert CleanedLines(a + b) == CleanedLines(a) + CleanedLines(b) by {
      CleanedLinesAppend(a, b);
    }
    FlattenAppend(CleanedLines(a), CleanedLines(b));
  }

  lemma CleanedLinesAppend(a: seq<string>, b: seq<string>)
    ensures CleanedLines(a + b) == CleanedLines(a) + CleanedLines(b)
  {
    var l := CleanedLines(a + b);
    assert l[..|a|] == CleanedLines(a) by {
      forall i | 0 <= i < |a|
        ensures l[i] == CleanLine(a[i])
      {
        assert (a + b)[i] == a[i];
      }
    }
    assert l[|a|..] == CleanedLines(b) by {
      forall i | 0 <= i < |b|
        ensures l[|a| + i] == CleanLine(b[i])
      {
        assert (a + b)[|a| + i] == b[i];
      }
    }
    assert l == l[..|a|] + l[|a|..];
  }

  /** Line `i` contributes its cleaned text between those of the lines
      before and after it. */
  lemma JoinedAround(file: seq<string>, i: nat)
    requires i < |file|
    ensures JoinedText(file) == JoinedText(file[..i]) + CleanLine(file[i]) + JoinedText(file[i + 1..])
  {
    assert CleanedLines(file) == CleanedLines(file[..i]) + [CleanLine(file[i])] + CleanedLines(file[i + 1..]);
    FlattenAppend(CleanedLines(file[..i]) + [CleanLine(file[i])], CleanedLines(file[i + 1..]));
    FlattenAppend(CleanedLines(file[..i]), [CleanLine(file[i])]);
    assert Flatten([CleanLine(file[i])]) == CleanLine(file[i]);
  }

  /** A line that contributes nothing can be left out of the file. */
  lemma EmptyContributionDropped(file: seq<string>, i: nat)
    requires i < |file| && CleanLine(file[i]) == ""
    ensures JoinedText(file) == JoinedText(file[..i] + file[i + 1..])
  {
    var before, after := file[..i], file[i + 1..];
    calc {
      JoinedText(file);
    ==  { JoinedAround(file, i); }
      JoinedText(before) + "" + JoinedText(after);
    ==
      JoinedText(before) + JoinedText(after);
    ==  { JoinedConcat(before, after); }
      JoinedText(before + after);
    }
  }

  /** A comment line contributes nothing: the text is the same as without it. */
  lemma CommentLineDropped(file: seq<string>, i: nat)
    requires i < |file| && IsCommentLine(Strip(file[i]))
    ensures JoinedText(file) == JoinedText(file[..i] + file[i + 1..])
  {
    EmptyContributionDropped(file, i);
  }

  /** Any other line contributes its stripped text, with no separator on
      either side. */
  lemma CodeLineKept(file: seq<string>, i: nat)
    requires i < |file| && !IsCommentLine(Strip(file[i]))
    ensures JoinedText(file) == JoinedText(file[..i]) + Strip(file[i]) + JoinedText(file[i + 1..])
  {
    JoinedAround(file, i);
  }

  lemma LetterLine(c: char)
    requires IsLetter(c)
    ensures CleanLine([c, '\n']) == [c]
  {
    var line := [c, '\n'];
    assert Strip(line) == [c] by {
      assert StripLeft(line) == line;
      assert line[..1] == [c];
    }
    assert !IsCommentLine([c]);
  }

  lemma CleanedPair(a: string, b: string)
    ensures CleanedLines([a, b]) == [CleanLine(a), CleanLine(b)]
  {
  }

  lemma FusedText()
    ensures JoinedText(["x\n", "y\n"]) == "xy"
  {
    calc {
      JoinedText(["x\n", "y\n"]);
      Flatten(CleanedLines(["x\n", "y\n"]));
      { CleanedPair("x\n", "y\n"); }
      Flatten([CleanLine("x\n"), CleanLine("y\n")]);
      { LetterLine('x'); LetterLine('y'); }
      Flatten(["x", "y"]);
      { FlattenPair("x", "y"); }
      "xy";
    }
  }

  lemma FusedRuns()
    ensures LetterRuns("xy") == ["xy"]
  {
    var text := "xy";
    assert SkipNonLetters(text) == text;
    assert LetterPrefix(text) == "xy" by {
      assert LetterPrefix(text[2..]) == [];
      assert LetterPrefix(text[1..]) == "y";
    }
    assert Lower("xy") == "xy";
    assert text[2..] == [];
  }

  /** The lines are joined without a separator, so the last word of one
      line and the first word of the next become one token. */
  lemma WordsFuseAcrossLines()
    ensures FileTokens(["x\n", "y\n"]) == ["xy"]
  {
    FusedText();
    FusedRuns();
  }

  lemma {:induction false} FlattenWithoutLetters(parts: seq<string>)
    requires forall i, k :: 0 <= i < |parts| && 0 <= k < |parts[i]| ==> !IsLetter(parts[i][k])
    ensures forall k :: 0 <= k < |Flatten(parts)| ==> !IsLetter(Flatten(parts)[k])
    decreases |parts|
  {
    if parts != [] {
      var init := parts[..|parts| - 1];
      assert forall i :: 0 <= i < |init| ==> init[i] == parts[i];
      FlattenWithoutLetters(init);
      var last := parts[|parts| - 1];
      forall k | 0 <= k < |Flatten(parts)|
        ensures !IsLetter(Flatten(parts)[k])
      {
        if k >= |Flatten(init)| {
          assert Flatten(parts)[k] == last[k - |Flatten(init)|];
        }
      }
    }
  }

  /** A line without letters contributes no letter. */
  lemma CleanLineWithoutLetters(line: string)
    requires forall k :: 0 <= k < |line| ==> !IsLetter(line[k])
    ensures forall k :: 0 <= k < |CleanLine(line)| ==> !IsLetter(CleanLine(line)[k])
  {
    var r := CleanLine(line);
    assert r == "" || r == Strip(line);
    forall k | 0 <= k < |r|
      ensures !IsLetter(r[k])
    {
      StripChar(line, k);
    }
  }

  /** A file made only of comment lines and lines without ASCII letters
      yields no token; so does an empty file. */
  lemma NoTokensWithoutLetters(file: seq<string>)
    requires forall i :: 0 <= i < |file| ==>
      IsCommentLine(Strip(file[i])) || forall k :: 0 <= k < |file[i]| ==> !IsLetter(file[i][k])
    ensures FileTokens(file) == []
  {
    var parts := CleanedLines(file);
    forall i | 0 <= i < |parts|
      ensures forall k :: 0 <= k < |parts[i]| ==> !IsLetter(parts[i][k])
    {
      if !IsCommentLine(Strip(file[i])) {
        CleanLineWithoutLetters(file[i]);
      }
    }
    FlattenWithoutLetters(parts);
    NoLettersNoRuns(JoinedText(file));
  }
}
