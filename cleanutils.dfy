/** The text cleaners applied to every comment: emoji translation, emoticon
    translation, replacement of non-alphabetic characters, and stopword removal.
    The repository defines them twice, identically (in the preparation script and
    in the package's cleaning utilities); this one module models both copies. */
module CleanUtils {
  import opened PyStr

  // ---------------------------------------------------------------------------
  // translate_emojis

  /** The text an emoji's meaning becomes: every ':' deleted, then every '_' made a space. */
  function Describe(meaning: string): (r: string)
    ensures ':' !in r && '_' !in r
  {
    var noColons := ReplaceAll(meaning, ":", "");
    ReplaceCharIsMapChar(meaning, ':', "");
    MapCharOrigin(meaning, ':', "", ':');
    ReplaceCharIsMapChar(noColons, '_', " ");
    MapCharOrigin(noColons, '_', " ", ':');
    MapCharOrigin(noColons, '_', " ", '_');
    ReplaceAll(noColons, "_", " ")
  }

  /** Reference reading of `Describe` in a single pass over the characters. */
  function DescribeOnePass(meaning: string): string
  {
    if |meaning| == 0 then []
    else (if meaning[0] == ':' then "" else if meaning[0] == '_' then " " else [meaning[0]])
         + DescribeOnePass(meaning[1..])
  }

  /** The two successive `replace` calls equal the one-pass character map. */
  lemma {:induction false} DescribeIsOnePass(meaning: string)
    ensures Describe(meaning) == DescribeOnePass(meaning)
  {
    ReplaceCharIsMapChar(meaning, ':', "");
    ReplaceCharIsMapChar(MapChar(meaning, ':', ""), '_', " ");
    TwoMapsAreOnePass(meaning);
  }

  lemma {:induction false} TwoMapsAreOnePass(s: string)
    ensures MapChar(MapChar(s, ':', ""), '_', " ") == DescribeOnePass(s)
    decreases |s|
  {
    if |s| > 0 {
      var piece := if s[0] == ':' then "" else [s[0]];
      assert MapChar(s, ':', "") == piece + MapChar(s[1..], ':', "");
      MapCharAppend(piece, MapChar(s[1..], ':', ""), '_', " ");
      TwoMapsAreOnePass(s[1..]);
    }
  }

  /** One pass of the loop for the table entry (emoji, meaning): if the emoji is one
      of the tokens, its first occurrence is replaced by the described meaning. */
  function EmojiStep(tokens: seq<string>, entry: (string, string)): (r: seq<string>)
    ensures |r| == |tokens|
    ensures forall j :: 0 <= j < |tokens| && r[j] != tokens[j] ==>
      FirstIndex(tokens, entry.0) == Some(j) && r[j] == Describe(entry.1)
    ensures entry.0 in tokens ==> r[FirstIndex(tokens, entry.0).value] == Describe(entry.1)
  {
    if entry.0 in tokens then tokens[FirstIndex(tokens, entry.0).value := Describe(entry.1)]
    else tokens
  }

  /** The token list after the loop over the whole emoji table, in table order. */
  function EmojiTokens(table: seq<(string, string)>, tokens: seq<string>): (r: seq<string>)
    ensures |r| == |tokens|
    decreases |table|
  {
    if |table| == 0 then tokens else EmojiTokens(table[1..], EmojiStep(tokens, table[0]))
  }

  /** When no emoji of the table is a token, the tokens come back unchanged. */
  lemma {:induction false} EmojiTokensNoKey(table: seq<(string, string)>, tokens: seq<string>)
    requires forall k :: 0 <= k < |table| ==> table[k].0 !in tokens
    ensures EmojiTokens(table, tokens) == tokens
    decreases |table|
  {
    if |table| > 0 {
      assert table[0].0 !in tokens;
      assert forall k :: 0 <= k < |table[1..]| ==> table[1..][k] == table[k + 1];
      EmojiTokensNoKey(table[1..], tokens);
    }
  }

  /** Every output token is the input token at that position or the described
      meaning of some table entry. */
  lemma {:induction false} EmojiTokensOrigin(table: seq<(string, string)>, tokens: seq<string>, j: nat)
    requires j < |tokens|
    ensures var r := EmojiTokens(table, tokens);
      r[j] == tokens[j] || exists k :: 0 <= k < |table| && r[j] == Describe(table[k].1)
    decreases |table|
  {
    if |table| > 0 {
      var step := EmojiStep(tokens, table[0]);
      EmojiTokensOrigin(table[1..], step, j);
      var r := EmojiTokens(table, tokens);
      if r[j] != step[j] {
        var k :| 0 <= k < |table[1..]| && r[j] == Describe(table[1..][k].1);
        assert table[1..][k] == table[k + 1];
      } else if step[j] != tokens[j] {
        assert r[j] == Describe(table[0].1);
      }
    }
  }

  /** translate_emojis: the text `tokenize` splits, translated, joined with spaces.
      With no emoji of the table among the tokens, it is the space-join of the tokens. */
  function EmojisTranslated(table: seq<(string, string)>, tokenize: string -> seq<string>, text: string): (r: string)
    ensures (forall k :: 0 <= k < |table| ==> table[k].0 !in tokenize(text)) ==> r == Join(" ", tokenize(text))
  {
    var tokens := tokenize(text);
    if forall k :: 0 <= k < |table| ==> table[k].0 !in tokens then
      EmojiTokensNoKey(table, tokens);
      Join(" ", EmojiTokens(table, tokens))
    else
      Join(" ", EmojiTokens(table, tokens))
  }

  /** translate_emojis, the loop that assigns into the token list. */
  method TranslateEmojis(table: seq<(string, string)>, tokenize: string -> seq<string>, text: string)
      returns (r: string)
    ensures r == EmojisTranslated(table, tokenize, text)
  {
    var tokens := tokenize(text);
    for i := 0 to |table|
      invariant EmojiTokens(table[i..], tokens) == EmojiTokens(table, tokenize(text))
    {
      var (emo, meaning) := table[i];
      assert table[i..][1..] == table[i + 1..];
      if emo in tokens {
        var index := FirstIndex(tokens, emo).value;
        tokens := tokens[index := Describe(meaning)];
      }
    }
    r := Join(" ", tokens);
  }

  // ---------------------------------------------------------------------------
  // translate_emoticons

  /** Every emoticon of the table replaced, left to right, in table order. When no
      emoticon of the table occurs in the text, the text is returned unchanged. */
  function EmoticonsApplied(table: seq<(string, string)>, text: string): (r: string)
    ensures (forall k :: 0 <= k < |table| ==> !Contains(text, table[k].0)) ==> r == text
    decreases |table|
  {
    if |table| == 0 then text
    else
      var next := ReplaceAll(text, table[0].0, table[0].1);
      assert (forall k :: 0 <= k < |table| ==> !Contains(text, table[k].0)) ==>
        next == text && forall k :: 0 <= k < |table[1..]| ==> !Contains(next, table[1..][k].0)
      by {
        if forall k :: 0 <= k < |table| ==> !Contains(text, table[k].0) {
          assert !Contains(text, table[0].0);
          ReplaceAbsent(text, table[0].0, table[0].1);
          assert forall k :: 0 <= k < |table[1..]| ==> table[1..][k] == table[k + 1];
        }
      }
      EmoticonsApplied(table[1..], next)
  }

  /** translate_emoticons, the loop with its `ticon in new_text` guard. */
  method TranslateEmoticons(table: seq<(string, string)>, text: string) returns (r: string)
    ensures r == EmoticonsApplied(table, text)
  {
    var newText := text;
    for i := 0 to |table|
      invariant EmoticonsApplied(table[i..], newText) == EmoticonsApplied(table, text)
    {
      var (ticon, meaning) := table[i];
      assert table[i..][1..] == table[i + 1..];
      GuardedReplaceIsReplace(newText, ticon, meaning);
      if Contains(newText, ticon) {
        newText := ReplaceAll(newText, ticon, meaning);
      }
    }
    r := newText;
  }

  // ---------------------------------------------------------------------------
  // filter_text_noise

  /** Position by position: alphabetic characters kept, every other character a space. */
  function NoiseFiltered(isAlpha: char -> bool, text: string): (r: string)
    ensures |r| == |text|
    ensures forall c :: c in r ==> isAlpha(c) || c == ' '
  {
    seq(|text|, j requires 0 <= j < |text| => if isAlpha(text[j]) then text[j] else ' ')
  }

  /** Filtering twice is filtering once. */
  lemma NoiseFilteredIdempotent(isAlpha: char -> bool, text: string)
    ensures NoiseFiltered(isAlpha, NoiseFiltered(isAlpha, text)) == NoiseFiltered(isAlpha, text)
  {
  }

  /** The filter leaves a text unchanged exactly when it holds only alphabetic characters and spaces. */
  lemma NoiseFilteredFixedPoints(isAlpha: char -> bool, text: string)
    ensures NoiseFiltered(isAlpha, text) == text <==> forall c :: c in text ==> isAlpha(c) || c == ' '
  {
    if forall c :: c in text ==> isAlpha(c) || c == ' ' {
      forall j | 0 <= j < |text| ensures NoiseFiltered(isAlpha, text)[j] == text[j] {
        assert text[j] in text;
      }
    }
  }

  /** filter_text_noise: for each character of the original text that is not
      alphabetic, every occurrence of it in the working copy becomes a space. */
  method FilterTextNoise(isAlpha: char -> bool, text: string) returns (r: string)
    ensures r == NoiseFiltered(isAlpha, text)
  {
    var nextText := text;
    for i := 0 to |text|
      invariant |nextText| == |text|
      invariant forall j :: 0 <= j < |text| ==>
        nextText[j] == if !isAlpha(text[j]) && text[j] in text[..i] then ' ' else text[j]
    {
      var e := text[i];
      assert text[..i + 1] == text[..i] + [e];
      if !isAlpha(e) {
        ReplaceCharIsMapChar(nextText, e, " ");
        MapCharPointwise(nextText, e, ' ');
        nextText := ReplaceAll(nextText, [e], " ");
      }
    }
    assert text[..|text|] == text;
    r := nextText;
  }

  // ---------------------------------------------------------------------------
  // filter_stopwords

  /** The tokens that are not stopwords, in their original order. */
  function Kept(tokens: seq<string>, stopWords: set<string>): (r: seq<string>)
    ensures |r| <= |tokens|
    ensures forall t :: t in r <==> t in tokens && t !in stopWords
  {
    if |tokens| == 0 then []
    else (if tokens[0] in stopWords then [] else [tokens[0]]) + Kept(tokens[1..], stopWords)
  }

  /** `xs` can be obtained from `ys` by deleting elements. */
  predicate IsSubsequence<T(==)>(xs: seq<T>, ys: seq<T>)
    decreases |ys|
  {
    |xs| == 0 ||
    (|ys| > 0 && ((xs[0] == ys[0] && IsSubsequence(xs[1..], ys[1..])) || IsSubsequence(xs, ys[1..])))
  }

  /** Filtering distributes over concatenation. */
  lemma {:induction false} KeptAppend(a: seq<string>, b: seq<string>, stopWords: set<string>)
    ensures Kept(a + b, stopWords) == Kept(a, stopWords) + Kept(b, stopWords)
    decreases |a|
  {
    if |a| == 0 {
      assert a + b == b;
    } else {
      assert (a + b)[1..] == a[1..] + b;
      KeptAppend(a[1..], b, stopWords);
    }
  }

  /** The kept tokens are a subsequence of the input tokens. */
  lemma {:induction false} KeptIsSubsequence(tokens: seq<string>, stopWords: set<string>)
    ensures IsSubsequence(Kept(tokens, stopWords), tokens)
  {
    if |tokens| > 0 {
      KeptIsSubsequence(tokens[1..], stopWords);
      var rest := Kept(tokens[1..], stopWords);
      if tokens[0] !in stopWords {
        assert Kept(tokens, stopWords) == [tokens[0]] + rest;
        assert ([tokens[0]] + rest)[1..] == rest;
      } else {
        assert Kept(tokens, stopWords) == rest;
      }
    }
  }

  /** A token that is not a stopword keeps its number of occurrences; stopwords vanish. */
  lemma {:induction false} KeptCounts(tokens: seq<string>, stopWords: set<string>, t: string)
    ensures multiset(Kept(tokens, stopWords))[t] == if t in stopWords then 0 else multiset(tokens)[t]
  {
    if |tokens| > 0 {
      KeptCounts(tokens[1..], stopWords, t);
      assert tokens == [tokens[0]] + tokens[1..];
      assert multiset(tokens) == multiset([tokens[0]]) + multiset(tokens[1..]);
    }
  }

  /** The filter returns its input exactly when no token is a stopword. */
  lemma {:induction false} KeptFixedPoints(tokens: seq<string>, stopWords: set<string>)
    ensures Kept(tokens, stopWords) == tokens <==> forall j :: 0 <= j < |tokens| ==> tokens[j] !in stopWords
  {
    if forall j :: 0 <= j < |tokens| ==> tokens[j] !in stopWords {
      if |tokens| > 0 {
        assert tokens[0] !in stopWords;
        assert forall j :: 0 <= j < |tokens[1..]| ==> tokens[1..][j] == tokens[j + 1];
        KeptFixedPoints(tokens[1..], stopWords);
        assert [tokens[0]] + tokens[1..] == tokens;
      }
    } else {
      var j :| 0 <= j < |tokens| && tokens[j] in stopWords;
      assert tokens[j] !in Kept(tokens, stopWords);
    }
  }

  /** Filtering an already filtered token list changes nothing. */
  lemma KeptIdempotent(tokens: seq<string>, stopWords: set<string>)
    ensures Kept(Kept(tokens, stopWords), stopWords) == Kept(tokens, stopWords)
  {
    var once := Kept(tokens, stopWords);
    assert forall j :: 0 <= j < |once| ==> once[j] in once;
    KeptFixedPoints(once, stopWords);
  }

  /** filter_stopwords: the text `tokenize` splits, its non-stopwords joined with spaces.
      With no stopword among the tokens, it is the space-join of the tokens. */
  function StopwordsFiltered(stopWords: set<string>, tokenize: string -> seq<string>, text: string): (r: string)
    ensures (forall j :: 0 <= j < |tokenize(text)| ==> tokenize(text)[j] !in stopWords) ==>
      r == Join(" ", tokenize(text))
  {
    KeptFixedPoints(tokenize(text), stopWords);
    Join(" ", Kept(tokenize(text), stopWords))
  }

  /** filter_stopwords, the loop that appends each non-stopword. */
  method FilterStopwords(stopWords: set<string>, tokenize: string -> seq<string>, text: string)
      returns (r: string)
    ensures r == StopwordsFiltered(stopWords, tokenize, text)
  {
    var tokens := tokenize(text);
    var filtered: seq<string> := [];
    for i := 0 to |tokens|
      invariant filtered == Kept(tokens[..i], stopWords)
    {
      var token := tokens[i];
      assert tokens[..i + 1] == tokens[..i] + [token];
      KeptAppend(tokens[..i], [token], stopWords);
      if token !in stopWords {
        filtered := filtered + [token];
      }
    }
    assert tokens[..|tokens|] == tokens;
    r := Join(" ", filtered);
  }

  // ---------------------------------------------------------------------------
  // lemmatize_text

  /** lemmatize_text: each token `tokenize` gives, lemmatized, joined with spaces. */
  function LemmatizedText(lemmatize: string -> string, tokenize: string -> seq<string>, text: string): (r: string)
    ensures |tokenize(text)| == 0 ==> r == []
    ensures |tokenize(text)| > 0 ==> lemmatize(tokenize(text)[0]) <= r
  {
    var tokens := tokenize(text);
    Join(" ", seq(|tokens|, i requires 0 <= i < |tokens| => lemmatize(tokens[i])))
  }
}
