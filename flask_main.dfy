/** `clean_file` of the prediction service: the same per-line cleaning and
    tokenising as the training script, with the tokens joined back into one
    string by single spaces. */
module FlaskMain {
  import opened Text
  import opened CommentLines

  lemma LowerWordsAreWords(tokens: seq<string>)
    requires forall i :: 0 <= i < |tokens| ==> IsLowerWord(tokens[i])
    ensures forall i :: 0 <= i < |tokens| ==> IsWord(tokens[i])
  {
    forall i, k | 0 <= i < |tokens| && 0 <= k < |tokens[i]|
      ensures !IsSpace(tokens[i][k])
    {
      assert IsLowerLetter(tokens[i][k]);
    }
  }

  /** `' '.join(re.sub('[^a-zA-Z]', ' ', ''.join(file_cleaned)).lower().split())`:
      the training tokens joined by single spaces. The text holds only
      lowercase letters and single inner spaces, splitting it gives the
      tokens back, and it is empty exactly when there are no tokens. */
  method CleanFile(file: seq<string>) returns (text: string)
    requires AreReadLines(file)
    ensures text == JoinSpaces(FileTokens(file))
    ensures IsCanonical(text)
    ensures Split(text) == FileTokens(file)
    ensures text == "" <==> FileTokens(file) == []
  {
    var cleaned := CleanLines(file);
    var tokens := Tokenize(Flatten(cleaned));
    TokenizeIsLetterRuns(Flatten(cleaned));
    text := JoinSpaces(tokens);
    JoinCanonical(tokens);
    LowerWordsAreWords(tokens);
    SplitJoin(tokens);
  }

  /** An empty file, or one of comment lines and lines without letters
      only, is cleaned to the empty string. */
  lemma NoTextWithoutLetters(file: seq<string>)
    requires forall i :: 0 <= i < |file| ==>
      IsCommentLine(Strip(file[i])) || forall k :: 0 <= k < |file[i]| ==> !IsLetter(file[i][k])
    ensures JoinSpaces(FileTokens(file)) == ""
  {
    NoTokensWithoutLetters(file);
  }
}
