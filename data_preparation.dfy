/** The preparation script's main step: starting from the comments table, add the
    derived columns one after another, each computed row by row from the column
    the script names. */
module DataPreparation {
  import opened PyStr
  import opened Toolkit
  import opened CleanUtils
  import opened Sentiment
  import opened Features

  /** One row of the comments table: the named columns the collection script writes. */
  datatype Comment = Comment(author: string, publishedAt: string, updatedAt: string, likes: int, text: string)

  /** A prepared row: the original comment and its derived columns. */
  datatype PreparedRow = PreparedRow(
    comment: Comment,
    cleanedText: string,
    filteredText: string,
    lemmatizedText: string,
    hasEmojis: int,
    hasEmoticons: int,
    sentClass: string,
    sentScore: real)

  /** pandas' `column.apply(f)`: `f` applied to each row, the order kept. */
  function Apply<A, B>(column: seq<A>, f: A -> B): (r: seq<B>)
    ensures |r| == |column|
    ensures forall i :: 0 <= i < |column| ==> r[i] == f(column[i])
  {
    seq(|column|, i requires 0 <= i < |column| => f(column[i]))
  }

  /** The cleaned_text column for one raw text: HTML removed, emojis translated,
      emoticons translated, non-alphabetic characters blanked, then lower-cased. */
  function CleanedText(nlp: Nlp, lex: Lexicons, text: string): (r: string)
    ensures var tokens := nlp.tokenize(nlp.removeHtml(text));
      (forall k :: 0 <= k < |lex.emoji| ==> lex.emoji[k].0 !in tokens) &&
      (forall k :: 0 <= k < |lex.emoticons| ==> !Contains(Join(" ", tokens), lex.emoticons[k].0)) ==>
      r == nlp.lower(NoiseFiltered(nlp.isAlpha, Join(" ", tokens)))
  {
    nlp.lower(NoiseFiltered(nlp.isAlpha,
      EmoticonsApplied(lex.emoticons, EmojisTranslated(lex.emoji, nlp.tokenize, nlp.removeHtml(text)))))
  }

  /** Everything the script derives for one comment. */
  function PrepareRow(nlp: Nlp, lex: Lexicons, c: Comment): (r: PreparedRow)
    ensures r.comment == c
    ensures r.cleanedText == CleanedText(nlp, lex, c.text)
    ensures r.filteredText == StopwordsFiltered(lex.stopwords, nlp.tokenize, r.cleanedText)
    ensures r.lemmatizedText == LemmatizedText(nlp.lemmatize, nlp.tokenize, r.filteredText)
    ensures r.sentClass == Thresh(r.sentScore).Text()
    ensures r.sentScore == nlp.compound(r.cleanedText)
    ensures r.hasEmojis == 1 <==> exists k :: 0 <= k < |lex.emoji| && lex.emoji[k].0 in nlp.tokenize(c.text)
    ensures r.hasEmojis == 0 || r.hasEmojis == 1
    ensures r.hasEmoticons == 1 <==> exists k :: 0 <= k < |lex.emoticons| && Contains(c.text, lex.emoticons[k].0)
    ensures r.hasEmoticons == 0 || r.hasEmoticons == 1
  {
    var cleaned := CleanedText(nlp, lex, c.text);
    var filtered := StopwordsFiltered(lex.stopwords, nlp.tokenize, cleaned);
    PreparedRow(c, cleaned, filtered, LemmatizedText(nlp.lemmatize, nlp.tokenize, filtered),
      EmojiFlag(lex.emoji, nlp.tokenize(c.text)), EmoticonFlag(lex.emoticons, c.text),
      GetSentLabel(nlp.compound, cleaned, None).Text(), nlp.compound(cleaned))
  }

  /** A comment whose cleaned text scores 0.0 (the empty text, say) is labelled neutral. */
  lemma ZeroScoreIsNeutral(nlp: Nlp, lex: Lexicons, c: Comment)
    requires nlp.compound(CleanedText(nlp, lex, c.text)) == 0.0
    ensures PrepareRow(nlp, lex, c).sentClass == "neutral"
  {
  }

  /** The data frame: the columns read from the CSV file and the derived columns. */
  class Frame {
    var comments: seq<Comment>
    var cleanedText: seq<string>
    var filteredText: seq<string>
    var lemmatizedText: seq<string>
    var hasEmojis: seq<int>
    var hasEmoticons: seq<int>
    var sentClass: seq<string>
    var sentScore: seq<real>

    /** Every derived column has one entry per comment. */
    predicate Aligned()
      reads this
    {
      |cleanedText| == |filteredText| == |lemmatizedText| == |hasEmojis| == |hasEmoticons|
        == |sentClass| == |sentScore| == |comments|
    }

    /** Row i across all columns. */
    function Row(i: nat): PreparedRow
      reads this
      requires Aligned() && i < |comments|
    {
      PreparedRow(comments[i], cleanedText[i], filteredText[i], lemmatizedText[i],
        hasEmojis[i], hasEmoticons[i], sentClass[i], sentScore[i])
    }

    /** read_data: a frame holding only the comments table. */
    constructor (comments: seq<Comment>)
      ensures this.comments == comments
      ensures cleanedText == filteredText == lemmatizedText == []
      ensures hasEmojis == hasEmoticons == [] && sentClass == [] && sentScore == []
    {
      this.comments := comments;
      cleanedText, filteredText, lemmatizedText := [], [], [];
      hasEmojis, hasEmoticons, sentClass, sentScore := [], [], [], [];
    }

    /** The five successive assignments to the cleaned_text column. */
    method AddCleanedText(nlp: Nlp, lex: Lexicons)
      modifies this`cleanedText
      ensures |cleanedText| == |comments|
      ensures forall i :: 0 <= i < |comments| ==> cleanedText[i] == CleanedText(nlp, lex, comments[i].text)
    {
      var text := Apply(comments, (c: Comment) => c.text);
      cleanedText := Apply(text, nlp.removeHtml);
      cleanedText := Apply(cleanedText, t => EmojisTranslated(lex.emoji, nlp.tokenize, t));
      cleanedText := Apply(cleanedText, t => EmoticonsApplied(lex.emoticons, t));
      cleanedText := Apply(cleanedText, t => NoiseFiltered(nlp.isAlpha, t));
      cleanedText := Apply(cleanedText, nlp.lower);
    }

    /** filtered_text from cleaned_text, then lemmatized_text from filtered_text. */
    method AddFilteredAndLemmatized(nlp: Nlp, lex: Lexicons)
      modifies this`filteredText, this`lemmatizedText
      ensures |filteredText| == |lemmatizedText| == |cleanedText|
      ensures forall i :: 0 <= i < |cleanedText| ==>
        filteredText[i] == StopwordsFiltered(lex.stopwords, nlp.tokenize, cleanedText[i])
      ensures forall i :: 0 <= i < |cleanedText| ==>
        lemmatizedText[i] == LemmatizedText(nlp.lemmatize, nlp.tokenize, filteredText[i])
    {
      filteredText := Apply(cleanedText, t => StopwordsFiltered(lex.stopwords, nlp.tokenize, t));
      lemmatizedText := Apply(filteredText, t => LemmatizedText(nlp.lemmatize, nlp.tokenize, t));
    }

    /** has_emojis and has_emoticons, both from the raw text column. */
    method AddFeatures(nlp: Nlp, lex: Lexicons)
      modifies this`hasEmojis, this`hasEmoticons
      ensures |hasEmojis| == |hasEmoticons| == |comments|
      ensures forall i :: 0 <= i < |comments| ==>
        hasEmojis[i] == EmojiFlag(lex.emoji, nlp.tokenize(comments[i].text))
      ensures forall i :: 0 <= i < |comments| ==> hasEmoticons[i] == EmoticonFlag(lex.emoticons, comments[i].text)
    {
      var text := Apply(comments, (c: Comment) => c.text);
      hasEmojis := Apply(text, t => EmojiFlag(lex.emoji, nlp.tokenize(t)));
      hasEmoticons := Apply(text, t => EmoticonFlag(lex.emoticons, t));
    }

    /** sent_class and sent_score, both from cleaned_text. */
    method AddSentiment(nlp: Nlp)
      modifies this`sentClass, this`sentScore
      ensures |sentClass| == |sentScore| == |cleanedText|
      ensures forall i :: 0 <= i < |cleanedText| ==> sentClass[i] == GetSentLabel(nlp.compound, cleanedText[i], None).Text()
      ensures forall i :: 0 <= i < |cleanedText| ==> sentScore[i] == nlp.compound(cleanedText[i])
    {
      sentClass := Apply(cleanedText, t => GetSentLabel(nlp.compound, t, None).Text());
      sentScore := Apply(cleanedText, nlp.compound);
    }

    /** main: the column assignments, in the script's order. The comments table is
        left as it was, and every prepared row is what `PrepareRow` derives from its comment. */
    method Prepare(nlp: Nlp, lex: Lexicons)
      modifies this
      ensures comments == old(comments)
      ensures Aligned()
      ensures forall i :: 0 <= i < |comments| ==> Row(i) == PrepareRow(nlp, lex, comments[i])
      ensures forall i :: 0 <= i < |comments| ==> sentClass[i] == Thresh(sentScore[i]).Text()
    {
      AddCleanedText(nlp, lex);
      AddFilteredAndLemmatized(nlp, lex);
      AddFeatures(nlp, lex);
      AddSentiment(nlp);
    }
  }
}
