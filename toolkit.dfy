/** The third-party pieces the comment cleaners and the preparation script call,
    passed in as values: the NLP functions become function-typed fields, the
    lexicons become data. */
module Toolkit {

  /** Foreign functions, each deterministic.
      - removeHtml: BeautifulSoup(text, "html.parser").get_text()
      - tokenize:   nltk's word_tokenize
      - isAlpha:    str.isalpha on a one-character string
      - lower:      str.lower (pandas' Series.str.lower, row by row)
      - lemmatize:  WordNetLemmatizer().lemmatize on one word
      - compound:   SentimentIntensityAnalyzer().polarity_scores(text)["compound"] */
  datatype Nlp = Nlp(
    removeHtml: string -> string,
    tokenize: string -> seq<string>,
    isAlpha: char -> bool,
    lower: string -> string,
    lemmatize: string -> string,
    compound: string -> real)

  /** emot's UNICODE_EMOJI and EMOTICONS_EMO dictionaries as (key, meaning) pairs in
      their iteration (insertion) order, and nltk's English stopword list as a set. */
  datatype Lexicons = Lexicons(
    emoji: seq<(string, string)>,
    emoticons: seq<(string, string)>,
    stopwords: set<string>)
}
