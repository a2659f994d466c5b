/** The preprocessing helpers of `training.py`: `clean_file` turns the lines
    of a source file into tokens, `freq` counts them, `avg` keeps the
    unusually frequent ones and `files_to_words` merges the token lists of
    each file type. */
module Training {
  import opened Wrappers
  import opened Text
  import opened CommentLines
  import opened OrderedMaps

  /** The Python exception `avg` can raise. */
  datatype PyError = ZeroDivisionError

  /** `clean_file(file)`: the comment lines dropped, the others stripped and
      joined, and the result cut into lowercase letter runs. */
  method CleanFile(file: seq<string>) returns (tokens: seq<string>)
    requires AreReadLines(file)
    ensures tokens == FileTokens(file)
    ensures forall i :: 0 <= i < |tokens| ==> IsLowerWord(tokens[i])
  {
    var cleaned := CleanLines(file);
    tokens := Tokenize(Flatten(cleaned));
    TokenizeIsLetterRuns(Flatten(cleaned));
  }

  /** `words.count(w)`: how many times `w` occurs in `words`. */
  function Count(words: seq<string>, w: string): (n: nat)
    ensures n <= |words|
    ensures n > 0 <==> w in words
  {
    if words == [] then 0
    else
      assert words == words[..|words| - 1] + [words[|words| - 1]];
      Count(words[..|words| - 1], w) + (if words[|words| - 1] == w then 1 else 0)
  }

  predicate Distinct(s: seq<string>)
  {
    forall i, j :: 0 <= i < j < |s| ==> s[i] != s[j]
  }

  /** The counts in `words` of every key, added up. */
  function SumCounts(keys: seq<string>, words: seq<string>): nat
  {
    if keys == [] then 0 else SumCounts(keys[..|keys| - 1], words) + Count(words, keys[|keys| - 1])
  }

  lemma CountSnoc(words: seq<string>, x: string, w: string)
    ensures Count(words + [x], w) == Count(words, w) + if x == w then 1 else 0
  {
    assert (words + [x])[..|words|] == words;
  }

  lemma {:induction false} SumCountsSnoc(keys: seq<string>, words: seq<string>, x: string)
    ensures SumCounts(keys, words + [x]) == SumCounts(keys, words) + Count(keys, x)
    decreases |keys|
  {
    if keys != [] {
      var init, last := keys[..|keys| - 1], keys[|keys| - 1];
      SumCountsSnoc(init, words, x);
      CountSnoc(words, x, last);
      CountSnoc(init, last, x);
      assert init + [last] == keys;
    }
  }

  /** A key that is listed once is counted once. */
  lemma {:induction false} DistinctCount(keys: seq<string>, x: string)
    requires Distinct(keys) && x in keys
    ensures Count(keys, x) == 1
    decreases |keys|
  {
    var init, last := keys[..|keys| - 1], keys[|keys| - 1];
    assert keys == init + [last];
    if last == x {
      assert x !in init;
    } else {
      assert x in init;
      DistinctCount(init, x);
    }
  }

  /** Counting every word of `words` once, under distinct keys, counts every
      occurrence exactly once. */
  lemma {:induction false} CountsSumToLength(keys: seq<string>, words: seq<string>)
    requires Distinct(keys)
    requires forall i :: 0 <= i < |words| ==> words[i] in keys
    ensures SumCounts(keys, words) == |words|
    decreases |words|
  {
    if words == [] {
      SumCountsEmpty(keys);
    } else {
      var init, last := words[..|words| - 1], words[|words| - 1];
      assert words == init + [last];
      CountsSumToLength(keys, init);
      SumCountsSnoc(keys, init, last);
      DistinctCount(keys, last);
    }
  }

  lemma {:induction false} SumCountsEmpty(keys: seq<string>)
    ensures SumCounts(keys, []) == 0
    decreases |keys|
  {
    if keys != [] {
      SumCountsEmpty(keys[..|keys| - 1]);
    }
  }

  lemma {:induction false} SumOverCounts(keys: seq<string>, values: map<string, int>, words: seq<string>)
    requires forall i :: 0 <= i < |keys| ==> keys[i] in values && values[keys[i]] == Count(words, keys[i])
    ensures SumOver(keys, values) == SumCounts(keys, words)
    decreases |keys|
  {
    if keys != [] {
      SumOverCounts(keys[..|keys| - 1], values, words);
    }
  }

  /** `freq(words)`: the distinct words as keys, each mapped to how often it
      occurs (at least once); together the counts add up to `len(words)`. */
  method Freq(words: seq<string>) returns (freq: OrderedMap<string, int>)
    ensures freq.Valid()
    ensures forall w :: w in freq.values <==> w in words
    ensures forall w :: w in freq.values ==> freq.values[w] == Count(words, w) && freq.values[w] >= 1
    ensures SumOver(freq.keys, freq.values) == |words|
  {
    var setWords := set w | w in words;
    freq := Empty();
    var remaining := setWords;
    while remaining != {}
      invariant freq.Valid()
      invariant remaining <= setWords
      invariant forall w :: w in freq.values <==> w in setWords && w !in remaining
      invariant forall w :: w in freq.values ==> freq.values[w] == Count(words, w)
      decreases |remaining|
    {
      var i :| i in remaining;
      freq := Put(freq, i, Count(words, i));
      remaining := remaining - {i};
    }
    SumOverCounts(freq.keys, freq.values, words);
    CountsSumToLength(freq.keys, words);
  }

  /** The keys, in order, whose value `v` satisfies `v * n > 2 * total`,
      that is `v > 2 * (total / n)` for a positive `n`. */
  function AboveTwiceMean(keys: seq<string>, values: map<string, int>, n: int, total: int): (r: seq<string>)
    requires forall i :: 0 <= i < |keys| ==> keys[i] in values
    ensures |r| <= |keys|
  {
    if keys == [] then []
    else
      var init, last := keys[..|keys| - 1], keys[|keys| - 1];
      var r0 := AboveTwiceMean(init, values, n, total);
      if values[last] * n > 2 * total then r0 + [last] else r0
  }

  /** The keys `AboveTwiceMean` keeps are exactly those whose value passes
      the test, each once when the keys are distinct. */
  lemma {:induction false} AboveTwiceMeanMembers(keys: seq<string>, values: map<string, int>, n: int, total: int)
    requires forall i :: 0 <= i < |keys| ==> keys[i] in values
    ensures forall w :: w in AboveTwiceMean(keys, values, n, total) <==> w in keys && values[w] * n > 2 * total
    ensures Distinct(keys) ==> Distinct(AboveTwiceMean(keys, values, n, total))
    decreases |keys|
  {
    if keys != [] {
      var init, last := keys[..|keys| - 1], keys[|keys| - 1];
      assert keys == init + [last];
      AboveTwiceMeanMembers(init, values, n, total);
    }
  }

  /** `r` picks elements of `s` at the increasing positions `idx`. */
  ghost predicate PicksInOrder(r: seq<string>, s: seq<string>, idx: seq<nat>)
  {
    && |idx| == |r|
    && (forall j :: 0 <= j < |idx| ==> idx[j] < |s| && r[j] == s[idx[j]])
    && (forall j, k :: 0 <= j < k < |idx| ==> idx[j] < idx[k])
  }

  /** `r` is a sub-list of `s`: its elements occur in `s` in the same order. */
  ghost predicate IsSubList(r: seq<string>, s: seq<string>)
  {
    exists idx :: PicksInOrder(r, s, idx)
  }

  /** The filter keeps keys in their dict order: the kept keys are a
      sub-list of the keys. */
  lemma {:induction false} AboveTwiceMeanInOrder(keys: seq<string>, values: map<string, int>, n: int, total: int)
    requires forall i :: 0 <= i < |keys| ==> keys[i] in values
    ensures IsSubList(AboveTwiceMean(keys, values, n, total), keys)
    decreases |keys|
  {
    var r := AboveTwiceMean(keys, values, n, total);
    if keys == [] {
      assert PicksInOrder(r, keys, []);
    } else {
      var init, last := keys[..|keys| - 1], keys[|keys| - 1];
      var r0 := AboveTwiceMean(init, values, n, total);
      AboveTwiceMeanInOrder(init, values, n, total);
      var idx0: seq<nat> :| PicksInOrder(r0, init, idx0);
      if values[last] * n > 2 * total {
        var idx := idx0 + [|keys| - 1];
        assert r == r0 + [last];
        assert PicksInOrder(r, keys, idx);
      } else {
        assert PicksInOrder(r, keys, idx0);
      }
    }
  }

  lemma SumOverStep(keys: seq<string>, values: map<string, int>, i: nat)
    requires i < |keys| && forall k :: 0 <= k < |keys| ==> keys[k] in values
    ensures SumOver(keys[..i + 1], values) == SumOver(keys[..i], values) + values[keys[i]]
  {
    assert keys[..i + 1][..i] == keys[..i];
  }

  lemma AboveTwiceMeanStep(keys: seq<string>, values: map<string, int>, n: int, total: int, i: nat)
    requires i < |keys| && forall k :: 0 <= k < |keys| ==> keys[k] in values
    ensures AboveTwiceMean(keys[..i + 1], values, n, total)
      == AboveTwiceMean(keys[..i], values, n, total) + if values[keys[i]] * n > 2 * total then [keys[i]] else []
  {
    assert keys[..i + 1][..i] == keys[..i];
  }

  /** `avg(words)`: division by zero on an empty dict; otherwise the keys,
      in dict order, whose value exceeds twice the mean value. */
  method Avg(words: OrderedMap<string, int>) returns (r: Result<seq<string>, PyError>)
    requires words.Valid()
    ensures words.keys == [] <==> r == Failure(ZeroDivisionError)
    ensures r.Success? ==> r.value == AboveTwiceMean(words.keys, words.values, |words.keys|, SumOver(words.keys, words.values))
    ensures r.Success? ==> Distinct(r.value) && IsSubList(r.value, words.keys)
    ensures r.Success? ==> forall w :: w in r.value <==>
      w in words.values && words.values[w] * |words.keys| > 2 * SumOver(words.keys, words.values)
  {
    var count := SumValues(words);
    var n := |words.keys|;
    if n == 0 {
      return Failure(ZeroDivisionError);
    }
    var newWords := KeepAboveTwiceMean(words, n, count);
    AboveTwiceMeanMembers(words.keys, words.values, n, count);
    AboveTwiceMeanInOrder(words.keys, words.values, n, count);
    r := Success(newWords);
  }

  /** The first loop of `avg`: `count += words[word]` over the keys. */
  method SumValues(words: OrderedMap<string, int>) returns (count: int)
    requires words.Valid()
    ensures count == SumOver(words.keys, words.values)
  {
    count := 0;
    for i := 0 to |words.keys|
      invariant count == SumOver(words.keys[..i], words.values)
    {
      SumOverStep(words.keys, words.values, i);
      count := count + words.values[words.keys[i]];
    }
    assert words.keys[..|words.keys|] == words.keys;
  }

  /** The second loop of `avg`: the keys, in order, whose value exceeds
      twice the mean, compared as `words[word] * n > 2 * count`. */
  method KeepAboveTwiceMean(words: OrderedMap<string, int>, n: int, count: int) returns (newWords: seq<string>)
    requires words.Valid()
    ensures newWords == AboveTwiceMean(words.keys, words.values, n, count)
  {
    newWords := [];
    for i := 0 to |words.keys|
      invariant newWords == AboveTwiceMean(words.keys[..i], words.values, n, count)
    {
      AboveTwiceMeanStep(words.keys, words.values, n, count, i);
      var word := words.keys[i];
      if words.values[word] * n > 2 * count {
        newWords := newWords + [word];
      }
    }
    assert words.keys[..|words.keys|] == words.keys;
  }

  lemma MulMonotone(a: int, b: int, c: nat)
    requires a <= b
    ensures a * c <= b * c
  {
  }

  /** Some value is at most the mean: `v * n <= total`. */
  lemma {:induction false} SomeValueAtMostMean(keys: seq<string>, values: map<string, int>) returns (i: nat)
    requires keys != []
    requires forall k :: 0 <= k < |keys| ==> keys[k] in values
    ensures i < |keys| && values[keys[i]] * |keys| <= SumOver(keys, values)
    decreases |keys|
  {
    var init, last := keys[..|keys| - 1], keys[|keys| - 1];
    if init == [] {
      i := 0;
    } else {
      var j := SomeValueAtMostMean(init, values);
      var m := |init|;
      assert init[j] == keys[j];
      var vj, vl := values[keys[j]], values[last];
      if vl <= vj {
        MulMonotone(vl, vj, m);
        assert vl * (m + 1) == vl * m + vl;
        i := |keys| - 1;
      } else {
        assert vj * (m + 1) == vj * m + vj;
        i := j;
      }
    }
  }

  lemma {:induction false} SumOverNonNegative(keys: seq<string>, values: map<string, int>)
    requires forall i :: 0 <= i < |keys| ==> keys[i] in values && values[keys[i]] >= 0
    ensures SumOver(keys, values) >= 0
    decreases |keys|
  {
    if keys != [] {
      SumOverNonNegative(keys[..|keys| - 1], values);
    }
  }

  /** On a non-empty dict of non-negative values (as `freq` produces), some
      key is always left out: not every value can exceed twice the mean. */
  lemma AvgLeavesSomeKeyOut(words: OrderedMap<string, int>)
    requires words.Valid() && words.keys != []
    requires forall w :: w in words.values ==> words.values[w] >= 0
    ensures var n, total := |words.keys|, SumOver(words.keys, words.values);
      exists w :: w in words.values && w !in AboveTwiceMean(words.keys, words.values, n, total)
  {
    SumOverNonNegative(words.keys, words.values);
    var i := SomeValueAtMostMean(words.keys, words.values);
    AboveTwiceMeanMembers(words.keys, words.values, |words.keys|, SumOver(words.keys, words.values));
    assert words.keys[i] in words.values;
  }

  lemma {:induction false} SumOverConstant(keys: seq<string>, values: map<string, int>, c: int)
    requires forall i :: 0 <= i < |keys| ==> keys[i] in values && values[keys[i]] == c
    ensures SumOver(keys, values) == |keys| * c
    decreases |keys|
  {
    if keys != [] {
      SumOverConstant(keys[..|keys| - 1], values, c);
    }
  }

  /** When every count is the same, no word is kept. */
  lemma AvgOfEqualCountsKeepsNothing(words: OrderedMap<string, int>, c: int)
    requires words.Valid() && c >= 0
    requires forall w :: w in words.values ==> words.values[w] == c
    ensures forall w :: w !in AboveTwiceMean(words.keys, words.values, |words.keys|, SumOver(words.keys, words.values))
  {
    var n := |words.keys|;
    SumOverConstant(words.keys, words.values, c);
    AboveTwiceMeanMembers(words.keys, words.values, n, SumOver(words.keys, words.values));
    MulMonotone(0, c, n);
    assert c * n <= 2 * (n * c);
  }

  /** The inner loop of `files_to_words`: `words_file[filetype] += file`
      for each token list in turn, which leaves the lists appended in order
      and nothing else changed. */
  method ExtendEach(m: OrderedMap<string, seq<string>>, key: string, lists: seq<seq<string>>)
    returns (r: OrderedMap<string, seq<string>>)
    requires m.Valid() && key in m.values
    ensures r.Valid() && r.keys == m.keys
    ensures r.values == m.values[key := m.values[key] + Flatten(lists)]
  {
    r := m;
    assert m.values[key] + Flatten(lists[..0]) == m.values[key];
    for j := 0 to |lists|
      invariant r.Valid() && r.keys == m.keys
      invariant r.values == m.values[key := m.values[key] + Flatten(lists[..j])]
    {
      assert lists[..j + 1][..j] == lists[..j];
      assert Flatten(lists[..j + 1]) == Flatten(lists[..j]) + lists[j];
      assert r.values[key] == m.values[key] + Flatten(lists[..j]);
      assert r.values[key] + lists[j] == m.values[key] + Flatten(lists[..j + 1]);
      r := Put(r, key, r.values[key] + lists[j]);
    }
    assert lists[..|lists|] == lists;
  }

  /** Every file type present in `words` holds the concatenated token
      lists of that file type. */
  predicate Merged(files: map<string, seq<seq<string>>>, words: map<string, seq<string>>)
  {
    forall t :: t in words ==> t in files && words[t] == Flatten(files[t])
  }

  lemma MergedUpdate(files: map<string, seq<seq<string>>>, words: map<string, seq<string>>, t: string)
    requires Merged(files, words) && t in files
    ensures Merged(files, words[t := Flatten(files[t])])
  {
  }

  /** One iteration of the outer loop of `files_to_words`: file type `i`
      is added with its token lists concatenated. */
  method AddFileType(files: OrderedMap<string, seq<seq<string>>>, wordsFile: OrderedMap<string, seq<string>>, i: nat)
    returns (r: OrderedMap<string, seq<string>>)
    requires files.Valid() && i < |files.keys|
    requires wordsFile.Valid() && wordsFile.keys == files.keys[..i]
    requires Merged(files.values, wordsFile.values)
    ensures r.Valid() && r.keys == files.keys[..i + 1]
    ensures Merged(files.values, r.values)
  {
    var filetype := files.keys[i];
    KeyNotBefore(files, i);
    r := Put(wordsFile, filetype, []);
    r := ExtendEach(r, filetype, files.values[filetype]);
    AddedFileType(files, wordsFile, i, r);
  }

  /** What one iteration leaves: file type `i` appended to the order and
      mapped to its concatenated token lists. */
  lemma AddedFileType(files: OrderedMap<string, seq<seq<string>>>, wordsFile: OrderedMap<string, seq<string>>, i: nat,
                      r: OrderedMap<string, seq<string>>)
    requires files.Valid() && i < |files.keys| && files.keys[i] !in files.keys[..i]
    requires wordsFile.keys == files.keys[..i] && Merged(files.values, wordsFile.values)
    requires r.keys == wordsFile.keys + [files.keys[i]]
    requires r.values == wordsFile.values[files.keys[i] := [] + Flatten(files.values[files.keys[i]])]
    ensures r.keys == files.keys[..i + 1]
    ensures Merged(files.values, r.values)
  {
    var t := files.keys[i];
    assert files.keys[..i + 1] == files.keys[..i] + [t];
    assert [] + Flatten(files.values[t]) == Flatten(files.values[t]);
    MergedUpdate(files.values, wordsFile.values, t);
  }

  /** `files_to_words(files)`: the same file types in the same order, each
      mapped to its files' token lists concatenated in order. */
  method FilesToWords(files: OrderedMap<string, seq<seq<string>>>) returns (wordsFile: OrderedMap<string, seq<string>>)
    requires files.Valid()
    ensures wordsFile.Valid()
    ensures wordsFile.keys == files.keys
    ensures forall t :: t in wordsFile.values ==> t in files.values && wordsFile.values[t] == Flatten(files.values[t])
    ensures forall t :: t in wordsFile.values ==> |wordsFile.values[t]| == SumLengths(files.values[t])
  {
    wordsFile := Empty();
    for i := 0 to |files.keys|
      invariant wordsFile.Valid()
      invariant wordsFile.keys == files.keys[..i]
      invariant Merged(files.values, wordsFile.values)
    {
      wordsFile := AddFileType(files, wordsFile, i);
    }
    assert files.keys[..|files.keys|] == files.keys;
  }
}
