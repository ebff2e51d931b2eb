/** The two indicator features of a comment, computed from its raw text:
    whether some emoji of the lexicon is one of its tokens, and whether some
    emoticon of the lexicon occurs in it as a substring. */
module Features {
  import opened PyStr
  import opened CleanUtils

  /** has_emojis on the token list: 1 when some emoji key is a token, else 0. */
  function EmojiFlag(table: seq<(string, string)>, tokens: seq<string>): (r: int)
    ensures r == 0 || r == 1
    ensures r == 1 <==> exists k :: 0 <= k < |table| && table[k].0 in tokens
    decreases |table|
  {
    if |table| == 0 then 0
    else if table[0].0 in tokens then 1
    else
      var rest := EmojiFlag(table[1..], tokens);
      assert forall k :: 0 < k < |table| ==> table[k] == table[1..][k - 1];
      rest
  }

  /** has_emoticons on the raw text: 1 when some emoticon key occurs in it, else 0. */
  function EmoticonFlag(table: seq<(string, string)>, text: string): (r: int)
    ensures r == 0 || r == 1
    ensures r == 1 <==> exists k :: 0 <= k < |table| && Contains(text, table[k].0)
    decreases |table|
  {
    if |table| == 0 then 0
    else if Contains(text, table[0].0) then 1
    else
      var rest := EmoticonFlag(table[1..], text);
      assert forall k :: 0 < k < |table| ==> table[k] == table[1..][k - 1];
      rest
  }

  /** has_emojis: scan the table, return 1 at the first emoji that is a token. */
  method HasEmojis(table: seq<(string, string)>, tokenize: string -> seq<string>, text: string)
      returns (r: int)
    ensures r == EmojiFlag(table, tokenize(text))
  {
    var tokens := tokenize(text);
    for i := 0 to |table|
      invariant forall k :: 0 <= k < i ==> table[k].0 !in tokens
    {
      if table[i].0 in tokens {
        return 1;
      }
    }
    return 0;
  }

  /** has_emoticons: scan the table, return 1 at the first emoticon found in the text. */
  method HasEmoticons(table: seq<(string, string)>, text: string) returns (r: int)
    ensures r == EmoticonFlag(table, text)
  {
    var newText := text;
    for i := 0 to |table|
      invariant forall k :: 0 <= k < i ==> !Contains(newText, table[k].0)
    {
      if Contains(newText, table[i].0) {
        return 1;
      }
    }
    return 0;
  }

  /** An emoticon packed against punctuation is still found: the test is on the raw text. */
  lemma EmoticonNextToPunctuation()
    ensures EmoticonFlag([(":)", "Happy face smiley")], "nice:)!") == 1
  {
    assert ":)" <= "nice:)!"[4..];
    assert "nice:)!"[1..][1..][1..][1..] == "nice:)!"[4..];
  }

  /** A text with no tokens has no emoji. */
  lemma NoTokensNoEmoji(table: seq<(string, string)>)
    ensures EmojiFlag(table, []) == 0
  {
  }

  /** The empty text has no emoticon when every emoticon key is nonempty. */
  lemma EmptyTextNoEmoticon(table: seq<(string, string)>)
    requires forall k :: 0 <= k < |table| ==> table[k].0 != []
    ensures EmoticonFlag(table, []) == 0
  {
    forall k | 0 <= k < |table| ensures !Contains([], table[k].0) {
      EmptyContainsOnlyEmpty(table[k].0);
    }
  }

  /** When has_emoticons finds nothing, translate_emoticons returns the text as it was:
      both test each key of the same table with the same `in`. */
  lemma NoEmoticonNoTranslation(table: seq<(string, string)>, text: string)
    requires EmoticonFlag(table, text) == 0
    ensures EmoticonsApplied(table, text) == text
  {
  }

  /** When has_emojis finds nothing among the tokens, translate_emojis only re-joins them. */
  lemma NoEmojiNoTranslation(table: seq<(string, string)>, tokenize: string -> seq<string>, text: string)
    requires EmojiFlag(table, tokenize(text)) == 0
    ensures EmojisTranslated(table, tokenize, text) == Join(" ", tokenize(text))
  {
  }
}
