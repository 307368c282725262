/** The reporter: it joins every section into one text and describes it —
    word and sentence counts, the most frequent words, sentences, letters
    and word pairs — in a single plain-text report. It makes no requests
    to the completion service. */
module Reporter {
  import opened Common
  import opened Text
  import opened Counter

  // -----------------------------------------------------------------------
  // The text

  /** One section as the report reads it: title and content on separate
      lines, stripped. */
  function SectionText(s: Section): string {
    Strip(s.title + "\n" + s.content)
  }

  function SectionTexts(sections: seq<Section>): (r: seq<string>)
    ensures |r| == |sections|
    ensures forall i :: 0 <= i < |sections| ==> r[i] == SectionText(sections[i])
  {
    seq(|sections|, i requires 0 <= i < |sections| => SectionText(sections[i]))
  }

  /** The whole text: the sections separated by a blank line. */
  function FullText(sections: seq<Section>): string {
    Join("\n\n", SectionTexts(sections))
  }

  // -----------------------------------------------------------------------
  // Words

  /** A character of regex `\w`, restricted to ASCII. */
  predicate IsWordChar(c: char) {
    'a' <= c <= 'z' || 'A' <= c <= 'Z' || '0' <= c <= '9' || c == '_'
  }

  /** `str.isalpha()`, restricted to ASCII. */
  predicate IsAlpha(c: char) {
    'a' <= c <= 'z' || 'A' <= c <= 'Z'
  }

  /** `_tokenize_words`: the pieces of `re.split(r"\W+", text)` that are
      not empty, which are the maximal runs of word characters. */
  function Tokens(text: string): seq<string> {
    Runs(text, IsWordChar)
  }

  /** Every token is a non-empty run of word characters, and together the
      tokens hold every word character of the text, in order. */
  lemma TokensSpec(text: string)
    ensures forall i :: 0 <= i < |Tokens(text)| ==> |Tokens(text)[i]| > 0
    ensures forall i, j :: 0 <= i < |Tokens(text)| && 0 <= j < |Tokens(text)[i]| ==> IsWordChar(Tokens(text)[i][j])
    ensures Concat(Tokens(text)) == Filter(text, IsWordChar)
    ensures Tokens(text) == [] <==> forall i :: 0 <= i < |text| ==> !IsWordChar(text[i])
  {
    RunsShape(text, IsWordChar);
    RunsConcat(text, IsWordChar);
  }

  /** The words lower-cased, as the word counter sees them. */
  function LowerAll(words: seq<string>): (r: seq<string>)
    ensures |r| == |words|
    ensures forall i :: 0 <= i < |words| ==> r[i] == Lower(words[i])
  {
    seq(|words|, i requires 0 <= i < |words| => Lower(words[i]))
  }

  // -----------------------------------------------------------------------
  // Sentences

  predicate EndsSentence(c: char) {
    c == '.' || c == '?' || c == '!'
  }

  /** `re.split(r'(?<=[.?!])\s+', text)`, scanning `s` with `cur` the piece
      built so far: a whitespace run right after a sentence mark ends the
      piece and is dropped whole. At the start of the text and right after
      a split no character or only whitespace precedes, so no split can
      happen there. */
  function Pieces(s: string, cur: string): seq<string>
    decreases |s|
  {
    if |s| == 0 then [cur]
    else if IsSpace(s[0]) && |cur| > 0 && EndsSentence(cur[|cur| - 1]) then
      [cur] + Pieces(s[LeadRun(s, IsSpace)..], "")
    else Pieces(s[1..], cur + [s[0]])
  }

  /** `[p.strip() for p in pieces if p.strip()]`. */
  function Clean(pieces: seq<string>): seq<string> {
    if |pieces| == 0 then []
    else (if Strip(pieces[0]) != "" then [Strip(pieces[0])] else []) + Clean(pieces[1..])
  }

  /** `_split_into_sentences`. */
  function Sentences(text: string): seq<string> {
    Clean(Pieces(text, ""))
  }

  /** No sentence mark followed by whitespace: the text holds no more split
      points. */
  predicate NoBreak(s: string) {
    forall i :: 0 <= i < |s| - 1 ==> !(EndsSentence(s[i]) && IsSpace(s[i + 1]))
  }

  lemma {:induction false} PiecesNoBreak(s: string, cur: string)
    requires NoBreak(cur)
    ensures forall i :: 0 <= i < |Pieces(s, cur)| ==> NoBreak(Pieces(s, cur)[i])
    decreases |s|
  {
    if |s| == 0 {
    } else if IsSpace(s[0]) && |cur| > 0 && EndsSentence(cur[|cur| - 1]) {
      PiecesNoBreak(s[LeadRun(s, IsSpace)..], "");
      var rest := Pieces(s[LeadRun(s, IsSpace)..], "");
      assert Pieces(s, cur) == [cur] + rest;
      forall i | 0 <= i < |Pieces(s, cur)| ensures NoBreak(Pieces(s, cur)[i]) {
        if i > 0 { assert Pieces(s, cur)[i] == rest[i - 1]; }
      }
    } else {
      var next := cur + [s[0]];
      assert NoBreak(next) by {
        forall i | 0 <= i < |next| - 1 ensures !(EndsSentence(next[i]) && IsSpace(next[i + 1])) {
          if i < |cur| - 1 {
            assert next[i] == cur[i] && next[i + 1] == cur[i + 1];
          }
        }
      }
      PiecesNoBreak(s[1..], next);
    }
  }

  lemma {:induction false} StripNoBreak(s: string)
    requires NoBreak(s)
    ensures NoBreak(Strip(s))
    decreases |s|
  {
    if |s| > 0 && IsSpace(s[0]) {
      assert NoBreak(s[1..]) by {
        forall i | 0 <= i < |s| - 2 ensures !(EndsSentence(s[1..][i]) && IsSpace(s[1..][i + 1])) {
          assert s[1..][i] == s[i + 1];
        }
      }
      StripNoBreak(s[1..]);
    } else if |s| > 0 && IsSpace(s[|s| - 1]) {
      StripNoBreak(s[..|s| - 1]);
    }
  }

  lemma {:induction false} CleanShape(pieces: seq<string>)
    requires forall i :: 0 <= i < |pieces| ==> NoBreak(pieces[i])
    ensures forall i :: 0 <= i < |Clean(pieces)| ==> Clean(pieces)[i] != "" && Strip(Clean(pieces)[i]) == Clean(pieces)[i] && NoBreak(Clean(pieces)[i])
    decreases |pieces|
  {
    if |pieces| > 0 {
      CleanShape(pieces[1..]);
      StripIdempotent(pieces[0]);
      StripNoBreak(pieces[0]);
      var head := if Strip(pieces[0]) != "" then [Strip(pieces[0])] else [];
      var r := Clean(pieces);
      assert r == head + Clean(pieces[1..]);
      forall i | 0 <= i < |r| ensures r[i] != "" && Strip(r[i]) == r[i] && NoBreak(r[i]) {
        if i >= |head| { assert r[i] == Clean(pieces[1..])[i - |head|]; }
      }
    }
  }

  /** Every sentence is non-empty, carries no outer whitespace (so
      stripping it again changes nothing), and contains no further split
      point. */
  lemma SentencesShape(text: string)
    ensures forall i :: 0 <= i < |Sentences(text)| ==>
      Sentences(text)[i] != "" && Strip(Sentences(text)[i]) == Sentences(text)[i] && NoBreak(Sentences(text)[i])
  {
    PiecesNoBreak(text, "");
    CleanShape(Pieces(text, ""));
  }

  lemma {:induction false} PiecesKeepNonSpace(s: string, cur: string)
    ensures Filter(Concat(Pieces(s, cur)), NotSpace) == Filter(cur + s, NotSpace)
    decreases |s|
  {
    if |s| == 0 {
      assert cur + s == cur;
      assert Concat(Pieces(s, cur)) == cur + Concat([]);
    } else if IsSpace(s[0]) && |cur| > 0 && EndsSentence(cur[|cur| - 1]) {
      var n := LeadRun(s, IsSpace);
      var rest := Pieces(s[n..], "");
      PiecesKeepNonSpace(s[n..], "");
      assert [] + s[n..] == s[n..];
      assert Pieces(s, cur) == [cur] + rest;
      ConcatCons(cur, rest);
      DropSpaceRun(cur, s, n, Concat(rest));
    } else {
      PiecesKeepNonSpace(s[1..], cur + [s[0]]);
      assert cur + [s[0]] + s[1..] == cur + s;
    }
  }

  lemma ConcatCons(x: string, xs: seq<string>)
    ensures Concat([x] + xs) == x + Concat(xs)
  {
    ConcatAppend([x], xs);
    assert Concat([x]) == x + Concat([]);
  }

  /** Dropping a run of whitespace loses no non-space character. */
  lemma DropSpaceRun(cur: string, s: string, n: nat, tail: string)
    requires n <= |s| && forall i :: 0 <= i < n ==> IsSpace(s[i])
    requires Filter(tail, NotSpace) == Filter(s[n..], NotSpace)
    ensures Filter(cur + tail, NotSpace) == Filter(cur + s, NotSpace)
  {
    SpaceRunFiltered(s, n);
    FilterAppend(cur, tail, NotSpace);
    FilterAppend(cur, s, NotSpace);
  }

  lemma {:induction false} SpaceRunFiltered(s: string, n: nat)
    requires n <= |s| && forall i :: 0 <= i < n ==> IsSpace(s[i])
    ensures Filter(s, NotSpace) == Filter(s[n..], NotSpace)
    decreases n
  {
    if n > 0 {
      assert !NotSpace(s[0]);
      assert Filter(s, NotSpace) == Filter(s[1..], NotSpace);
      SpaceRunFiltered(s[1..], n - 1);
      assert s[1..][n - 1..] == s[n..];
    }
  }

  lemma {:induction false} CleanKeepsNonSpace(pieces: seq<string>)
    ensures Filter(Concat(Clean(pieces)), NotSpace) == Filter(Concat(pieces), NotSpace)
    decreases |pieces|
  {
    if |pieces| > 0 {
      var p := pieces[0];
      CleanKeepsNonSpace(pieces[1..]);
      StripKeepsNonSpace(p);
      StripFacts(p);
      var head := if Strip(p) != "" then [Strip(p)] else [];
      assert Clean(pieces) == head + Clean(pieces[1..]);
      ConcatAppend(head, Clean(pieces[1..]));
      assert Concat(head) == (if Strip(p) != "" then Strip(p) else "");
      FilterAppend(Concat(head), Concat(Clean(pieces[1..])), NotSpace);
      FilterAppend(p, Concat(pieces[1..]), NotSpace);
      if Strip(p) == "" {
        FilterNoneKept(p, NotSpace);
      }
    }
  }

  /** Splitting into sentences loses only whitespace: the non-whitespace
      characters of the sentences, read in order, are those of the text. */
  lemma SentencesKeepNonSpace(text: string)
    ensures Filter(Concat(Sentences(text)), NotSpace) == Filter(text, NotSpace)
  {
    PiecesKeepNonSpace(text, "");
    CleanKeepsNonSpace(Pieces(text, ""));
    assert "" + text == text;
  }

  /** The report strips and filters the sentences once more; that changes
      nothing. */
  lemma {:induction false} CleanIsIdentity(ss: seq<string>)
    requires forall i :: 0 <= i < |ss| ==> ss[i] != "" && Strip(ss[i]) == ss[i]
    ensures Clean(ss) == ss
    decreases |ss|
  {
    if |ss| > 0 {
      CleanIsIdentity(ss[1..]);
    }
  }

  lemma CleanedSentences(text: string)
    ensures Clean(Sentences(text)) == Sentences(text)
  {
    SentencesShape(text);
    CleanIsIdentity(Sentences(text));
  }

  // -----------------------------------------------------------------------
  // Syllables

  predicate IsVowel(c: char) {
    c == 'a' || c == 'e' || c == 'i' || c == 'o' || c == 'u'
  }

  /** The syllable estimate of a word: its groups of consecutive vowels,
      after lower-casing. Groups are separated by other characters, so a word
      of m letters has at most (m + 1) / 2 of them. */
  function Syllables(w: string): (r: nat)
    ensures r <= |w|
    ensures 2 * r <= |w| + 1
  {
    RunsBound(Lower(w), IsVowel);
    |Runs(Lower(w), IsVowel)|
  }

  /** The number of group starts the character loop counts in `s`, given
      whether the previous character was kept. */
  function GroupStarts(s: string, keep: char -> bool, inGroup: bool): nat
    decreases |s|
  {
    if |s| == 0 then 0
    else if keep(s[0]) then (if inGroup then 0 else 1) + GroupStarts(s[1..], keep, true)
    else GroupStarts(s[1..], keep, false)
  }

  lemma {:induction false} GroupStartsInRun(s: string, keep: char -> bool)
    ensures GroupStarts(s, keep, true) == GroupStarts(s[LeadRun(s, keep)..], keep, false)
    decreases |s|
  {
    if |s| > 0 && keep(s[0]) {
      GroupStartsInRun(s[1..], keep);
      assert s[1..][LeadRun(s[1..], keep)..] == s[LeadRun(s, keep)..];
    }
  }

  /** Counting group starts is counting runs. */
  lemma {:induction false} GroupStartsAreRuns(s: string, keep: char -> bool)
    ensures GroupStarts(s, keep, false) == |Runs(s, keep)|
    decreases |s|
  {
    if |s| > 0 {
      if keep(s[0]) {
        GroupStartsInRun(s[1..], keep);
        var n := LeadRun(s, keep);
        assert s[1..][LeadRun(s[1..], keep)..] == s[n..];
        GroupStartsAreRuns(s[n..], keep);
      } else {
        GroupStartsAreRuns(s[1..], keep);
      }
    }
  }

  /** The inner loop of `_average_syllables_per_word`. */
  method CountSyllables(w: string) returns (syllables: nat)
    ensures syllables == Syllables(w)
  {
    var lw := Lower(w);
    syllables := 0;
    var inVowelGroup := false;
    for i := 0 to |lw|
      invariant syllables + GroupStarts(lw[i..], IsVowel, inVowelGroup) == GroupStarts(lw, IsVowel, false)
    {
      assert lw[i..][1..] == lw[i + 1..];
      if IsVowel(lw[i]) {
        if !inVowelGroup {
          syllables := syllables + 1;
          inVowelGroup := true;
        }
      } else {
        inVowelGroup := false;
      }
    }
    GroupStartsAreRuns(lw, IsVowel);
  }

  /** A word has no syllable exactly when it has no vowel letter. */
  lemma NoSyllablesIffNoVowel(w: string)
    ensures Syllables(w) == 0 <==> forall i :: 0 <= i < |w| ==> !IsVowel(LowerChar(w[i]))
  {
    RunsShape(Lower(w), IsVowel);
  }

  function TotalSyllables(words: seq<string>): nat
    decreases |words|
  {
    if |words| == 0 then 0 else TotalSyllables(words[..|words| - 1]) + Syllables(words[|words| - 1])
  }

  /** The outer loop: the syllables of all words. The report divides the
      total by the number of words. */
  method SumSyllables(words: seq<string>) returns (total: nat)
    ensures total == TotalSyllables(words)
  {
    total := 0;
    for i := 0 to |words|
      invariant total == TotalSyllables(words[..i])
    {
      var syllables := CountSyllables(words[i]);
      assert words[..i + 1][..i] == words[..i];
      total := total + syllables;
    }
    assert words[..|words|] == words;
  }

  // -----------------------------------------------------------------------
  // Word pairs

  /** `list(zip(a, b))`: pairs up to the shorter length. */
  function Zip(a: seq<string>, b: seq<string>): seq<(string, string)> {
    if |a| == 0 || |b| == 0 then [] else [(a[0], b[0])] + Zip(a[1..], b[1..])
  }

  /** `_get_bigrams`. */
  function Bigrams(words: seq<string>): seq<(string, string)> {
    if |words| == 0 then [] else Zip(words, words[1..])
  }

  lemma {:induction false} ZipAt(a: seq<string>, b: seq<string>)
    ensures |Zip(a, b)| == if |a| < |b| then |a| else |b|
    ensures forall i :: 0 <= i < |Zip(a, b)| ==> Zip(a, b)[i] == (a[i], b[i])
    decreases |a|
  {
    if |a| > 0 && |b| > 0 {
      ZipAt(a[1..], b[1..]);
      var z := Zip(a, b);
      forall i | 0 < i < |z| ensures z[i] == (a[i], b[i]) {
        assert z[i] == Zip(a[1..], b[1..])[i - 1];
      }
    }
  }

  /** One pair fewer than words, and the pairs give the words back: the
      first word of each pair, then the second word of the last pair. */
  lemma BigramsRoundTrip(words: seq<string>)
    requires |words| > 0
    ensures |Bigrams(words)| == |words| - 1
    ensures Firsts(Bigrams(words)) + [words[|words| - 1]] == words
    ensures [words[0]] + Seconds(Bigrams(words)) == words
  {
    ZipAt(words, words[1..]);
  }

  // -----------------------------------------------------------------------
  // Words of a minimum length

  function LongEntries(t: seq<Entry<string>>, minLength: nat): seq<Entry<string>> {
    if |t| == 0 then []
    else (if |t[0].0| >= minLength then [t[0]] else []) + LongEntries(t[1..], minLength)
  }

  /** `_get_top_words_by_length`: the tally's entries whose word has at
      least `minLength` characters, sorted by count (stable), first `n`. */
  function TopWordsByLength(t: seq<Entry<string>>, minLength: nat, n: nat): seq<Entry<string>> {
    var s := SortDesc(LongEntries(t, minLength));
    if n < |s| then s[..n] else s
  }

  lemma {:induction false} LongEntriesMembers(t: seq<Entry<string>>, minLength: nat)
    ensures forall e :: e in multiset(LongEntries(t, minLength)) <==> e in multiset(t) && |e.0| >= minLength
    decreases |t|
  {
    if |t| > 0 {
      LongEntriesMembers(t[1..], minLength);
      assert t == [t[0]] + t[1..];
    }
  }

  /** Every listed entry is an entry of the tally with a long enough word;
      every long-enough entry left out has a count no greater than any
      listed one. */
  lemma TopWordsByLengthSpec(t: seq<Entry<string>>, minLength: nat, n: nat)
    ensures |TopWordsByLength(t, minLength, n)| <= n
    ensures forall e :: e in TopWordsByLength(t, minLength, n) ==> e in t && |e.0| >= minLength
    ensures forall e, x ::
      (e in multiset(LongEntries(t, minLength)) - multiset(TopWordsByLength(t, minLength, n)) && x in TopWordsByLength(t, minLength, n))
      ==> |e.0| >= minLength && e.1 <= x.1
  {
    var long := LongEntries(t, minLength);
    var s := SortDesc(long);
    SortDescSpec(long);
    LongEntriesMembers(t, minLength);
    TopDominates(long, n);
    var top := TopWordsByLength(t, minLength, n);
    forall e | e in top ensures e in t && |e.0| >= minLength {
      assert e in s;
      assert e in multiset(s);
    }
    forall e | e in multiset(long) - multiset(top) ensures |e.0| >= minLength {
    }
  }

  // -----------------------------------------------------------------------
  // The report

  /** The figures the report's decimal statistics are computed from. */
  datatype Figures = Figures(wordCount: nat, sentenceCount: nat, uniqueWords: nat, totalSyllables: nat)

  /** The four decimal statistics as the report prints them (pages, mean
      sentence length, lexical diversity, reading ease), each with two
      decimals. */
  datatype Decimals = Decimals(pages: string, sentenceLength: string, diversity: string, readingEase: string)

  function FiguresOf(text: string): Figures {
    var words := Tokens(text);
    Figures(|words|, |Sentences(text)|, |Elements(LowerAll(words))|, TotalSyllables(words))
  }

  /** The lexical diversity is at most 1: there are never more distinct
      lower-cased words than words, and the distinct words are the keys of
      the word counter. */
  lemma DiversityAtMostOne(text: string)
    ensures FiguresOf(text).uniqueWords <= FiguresOf(text).wordCount
    ensures FiguresOf(text).uniqueWords == |Tally(LowerAll(Tokens(text)))|
  {
    DistinctCount(LowerAll(Tokens(text)));
  }

  function CountLine(name: string, c: nat): string {
    name + ": " + NatToString(c)
  }

  function WordLines(entries: seq<Entry<string>>): (r: seq<string>)
    ensures |r| == |entries|
  {
    seq(|entries|, i requires 0 <= i < |entries| => CountLine(entries[i].0, entries[i].1))
  }

  function LetterLines(entries: seq<Entry<char>>): (r: seq<string>)
    ensures |r| == |entries|
  {
    seq(|entries|, i requires 0 <= i < |entries| => CountLine([entries[i].0], entries[i].1))
  }

  function PairLines(entries: seq<Entry<(string, string)>>): (r: seq<string>)
    ensures |r| == |entries|
  {
    seq(|entries|, i requires 0 <= i < |entries| => CountLine(entries[i].0.0 + " " + entries[i].0.1, entries[i].1))
  }

  const DisplayLimit: nat := 200

  /** A sentence as listed: cut to 200 characters and marked when longer. */
  function Display(s: string): (r: string)
    ensures |s| < DisplayLimit ==> r == s
    ensures |s| >= DisplayLimit ==> |r| == DisplayLimit + 3 && r[..DisplayLimit] == s[..DisplayLimit] && r[DisplayLimit..] == "..."
  {
    if |s| < DisplayLimit then s else s[..DisplayLimit] + "..."
  }

  function QuotedLine(s: string, c: nat): string {
    CountLine("\"" + Display(s) + "\"", c)
  }

  /** The listed sentences: only those that occur more than once. */
  function QuotedLines(entries: seq<Entry<string>>): seq<string> {
    if |entries| == 0 then []
    else (if entries[0].1 > 1 then [QuotedLine(entries[0].0, entries[0].1)] else []) + QuotedLines(entries[1..])
  }

  const AllUniqueNote := "All sentences are unique and only appear once."

  /** The sentence part of the report. */
  function SentenceLines(sentences: seq<string>): seq<string> {
    var t := Tally(sentences);
    if AllOnce(t) then [AllUniqueNote]
    else ["Top 20 most used sentences:"] + QuotedLines(MostCommon(sentences, 20))
  }

  const ReportHeader := "===== DOCUMENT REPORT ====="
  const ReportFooter := "===== END OF REPORT ====="

  function Letters(text: string): string {
    Lower(Filter(text, IsAlpha))
  }

  /** The banner and the statistics. */
  function HeadLines(text: string, dec: Decimals): (r: seq<string>)
    ensures |r| == 8
  {
    [ReportHeader,
     "Total word count: " + NatToString(|Tokens(text)|),
     "Estimated pages (300 words/page): " + dec.pages,
     "Total sentence count: " + NatToString(|Sentences(text)|),
     "Average sentence length (words): " + dec.sentenceLength,
     "Lexical diversity (type/token ratio): " + dec.diversity,
     "Flesch Reading Ease Score: " + dec.readingEase + " (Higher is easier to read)",
     ""]
  }

  /** The frequency lists. */
  function BodyLines(text: string): seq<string> {
    var words := Tokens(text);
    var lowered := LowerAll(words);
    var counts := Tally(lowered);
    ["Top 20 most used words:"] + WordLines(MostCommon(lowered, 20)) + [""]
    + ["Top 20 words (>=4 letters):"] + WordLines(TopWordsByLength(counts, 4, 20)) + [""]
    + ["Top 20 words (>=5 letters):"] + WordLines(TopWordsByLength(counts, 5, 20)) + [""]
    + SentenceLines(Clean(Sentences(text))) + [""]
    + ["Top 20 most used letters:"] + LetterLines(MostCommon(Letters(text), 20)) + [""]
    + ["Top 10 most common bigrams:"] + PairLines(MostCommon(Bigrams(words), 10))
  }

  const TailLines: seq<string> := ["", ReportFooter]

  /** The lines of `generate_report`, with the decimal statistics given. */
  function ReportLines(text: string, dec: Decimals): seq<string> {
    HeadLines(text, dec) + BodyLines(text) + TailLines
  }

  /** `generate_report`: the lines joined by newlines. The decimal
      statistics are computed from the text's figures by `decimals`. */
  function GenerateReport(text: string, decimals: Figures -> Decimals): string {
    Join("\n", ReportLines(text, decimals(FiguresOf(text))))
  }

  /** No whitespace character is a word character. */
  lemma SpaceIsNotWord()
    ensures forall c :: IsSpace(c) ==> !IsWordChar(c)
  {
  }

  /** The tokens of several texts, one after the other. */
  function AllTokens(texts: seq<string>): seq<string>
    decreases |texts|
  {
    if |texts| == 0 then [] else Tokens(texts[0]) + AllTokens(texts[1..])
  }

  /** The tokens of each section read on its own: title, newline, content. */
  function SectionTokens(sections: seq<Section>): seq<string>
    decreases |sections|
  {
    if |sections| == 0 then []
    else Tokens(sections[0].title + "\n" + sections[0].content) + SectionTokens(sections[1..])
  }

  /** Joining with a blank line never glues two words together. */
  lemma {:induction false} JoinTokens(xs: seq<string>)
    ensures Tokens(Join("\n\n", xs)) == AllTokens(xs)
    decreases |xs|
  {
    if |xs| == 1 {
      assert xs[1..] == [];
    } else if |xs| > 1 {
      var rest := Join("\n\n", xs[1..]);
      JoinTokens(xs[1..]);
      assert xs[0] + "\n\n" + rest == xs[0] + ("\n\n" + rest);
      RunsAppendSep(xs[0], "\n\n" + rest, IsWordChar);
      RunsSkip("\n\n", rest, IsWordChar);
    }
  }

  /** Stripping each section's text loses no token. */
  lemma {:induction false} StrippedTokens(sections: seq<Section>)
    ensures AllTokens(SectionTexts(sections)) == SectionTokens(sections)
    decreases |sections|
  {
    if |sections| > 0 {
      var s := sections[0];
      SpaceIsNotWord();
      RunsStrip(s.title + "\n" + s.content, IsWordChar);
      assert SectionTexts(sections)[1..] == SectionTexts(sections[1..]);
      StrippedTokens(sections[1..]);
    }
  }

  /** The words the report counts are the words of the sections, section
      by section and in order: the blank-line join and the stripping add
      and remove only non-word characters. */
  lemma FullTextTokens(sections: seq<Section>)
    ensures Tokens(FullText(sections)) == SectionTokens(sections)
  {
    JoinTokens(SectionTexts(sections));
    StrippedTokens(sections);
  }

  /** The number of words of each section, added up. */
  function SectionWordTotal(sections: seq<Section>): nat
    decreases |sections|
  {
    if |sections| == 0 then 0
    else |Tokens(sections[0].title + "\n" + sections[0].content)| + SectionWordTotal(sections[1..])
  }

  lemma {:induction false} SectionTokensCount(sections: seq<Section>)
    ensures |SectionTokens(sections)| == SectionWordTotal(sections)
    decreases |sections|
  {
    if |sections| > 0 {
      SectionTokensCount(sections[1..]);
    }
  }

  /** The report's total word count is the sum of the sections' counts. */
  lemma WordCountAddsUp(sections: seq<Section>)
    ensures |Tokens(FullText(sections))| == SectionWordTotal(sections)
  {
    FullTextTokens(sections);
    SectionTokensCount(sections);
  }

  /** `Reporter.process_sections`: one report for all sections together. */
  function ProcessSections(sections: seq<Section>, decimals: Figures -> Decimals): (r: seq<string>)
    ensures |r| == 1
  {
    [GenerateReport(FullText(sections), decimals)]
  }

  /** The report opens with its banner and the word count, which reads
      back as the number of tokens, and closes with a blank line and the
      end banner. */
  lemma ReportFrame(text: string, decimals: Figures -> Decimals)
    ensures StartsWith(GenerateReport(text, decimals), ReportHeader + "\n" + ("Total word count: " + NatToString(|Tokens(text)|)) + "\n")
    ensures EndsWith(GenerateReport(text, decimals), "\n\n" + ReportFooter)
    ensures DigitsValue(NatToString(|Tokens(text)|)) == |Tokens(text)|
  {
    var h := HeadLines(text, decimals(FiguresOf(text)));
    assert h[0] == ReportHeader;
    assert h[1] == "Total word count: " + NatToString(|Tokens(text)|);
    LinesFrame(h, BodyLines(text));
    NatToStringValue(|Tokens(text)|);
  }

  /** The report's lines open with the first two head lines and close with
      the footer, whatever the head lines say. */
  lemma LinesFrame(h: seq<string>, body: seq<string>)
    requires |h| >= 3
    ensures StartsWith(Join("\n", h + body + TailLines), h[0] + "\n" + h[1] + "\n")
    ensures EndsWith(Join("\n", h + body + TailLines), "\n\n" + ReportFooter)
  {
    var lines := h + body + TailLines;
    assert lines == [h[0], h[1]] + (h[2..] + body) + TailLines;
    JoinedFrame(lines, h[0], h[1], h[2..] + body);
  }

  /** Lines made of two lines, a non-empty block and the closing lines,
      joined by newlines. */
  lemma JoinedFrame(lines: seq<string>, a: string, b: string, middle: seq<string>)
    requires |middle| > 0 && lines == [a, b] + middle + TailLines
    ensures StartsWith(Join("\n", lines), a + "\n" + b + "\n")
    ensures EndsWith(Join("\n", lines), "\n\n" + ReportFooter)
  {
    var m := JoinFrame(a, b, middle, "", ReportFooter);
    var tail := "\n" + "" + "\n" + ReportFooter;
    assert tail == "\n\n" + ReportFooter;
    AffixOfConcat(a + "\n" + b + "\n", m, tail);
  }

  lemma AffixOfConcat(x: string, m: string, y: string)
    ensures StartsWith(x + m + y, x) && EndsWith(x + m + y, y)
  {
    assert (x + m + y)[..|x|] == x;
    assert (x + m + y)[|x + m + y| - |y|..] == y;
  }

  /** Joining two lines, a non-empty block and two lines. */
  lemma JoinFrame(a: string, b: string, middle: seq<string>, y: string, z: string) returns (m: string)
    requires |middle| > 0
    ensures m == Join("\n", middle)
    ensures Join("\n", [a, b] + middle + [y, z]) == (a + "\n" + b + "\n") + m + ("\n" + y + "\n" + z)
  {
    m := Join("\n", middle);
    assert [a, b] + middle + [y, z] == [a, b] + (middle + [y, z]);
    JoinAppend("\n", [a, b], middle + [y, z]);
    JoinAppend("\n", middle, [y, z]);
    assert Join("\n", [a, b]) == a + "\n" + b;
    assert Join("\n", [y, z]) == y + "\n" + z;
  }

  /** When some sentence repeats, the sentence part lists at least one
      sentence, the most repeated one, with its count of 2 or more;
      otherwise it is the single note. */
  lemma SentenceLinesSpec(sentences: seq<string>)
    ensures Distinct(sentences) ==> SentenceLines(sentences) == [AllUniqueNote]
    ensures !Distinct(sentences) ==>
      |SentenceLines(sentences)| >= 2 &&
      var top := SortDesc(Tally(sentences))[0];
      top.1 >= 2 && multiset(sentences)[top.0] == top.1 &&
      SentenceLines(sentences)[1] == QuotedLine(top.0, top.1)
  {
    AllOnceIffDistinct(sentences);
    if !Distinct(sentences) {
      var t := Tally(sentences);
      TallyPositive(sentences);
      var k :| 0 <= k < |t| && t[k].1 != 1;
      SortDescTop(t, k);
      var s := SortDesc(t);
      var m := MostCommon(sentences, 20);
      assert m[0] == s[0];
      MostCommonCounts(sentences, 20);
      assert QuotedLines(m)[0] == QuotedLine(s[0].0, s[0].1);
    }
  }

  /** Every quoted line names a sentence that occurs at least twice, with
      its number of occurrences. */
  lemma QuotedLinesRepeated(sentences: seq<string>)
    ensures forall line :: line in QuotedLines(MostCommon(sentences, 20)) ==>
      exists s :: multiset(sentences)[s] >= 2 && line == QuotedLine(s, multiset(sentences)[s])
  {
    MostCommonCounts(sentences, 20);
    QuotedLinesFrom(MostCommon(sentences, 20));
    forall line | line in QuotedLines(MostCommon(sentences, 20))
      ensures exists s :: multiset(sentences)[s] >= 2 && line == QuotedLine(s, multiset(sentences)[s])
    {
      var e :| e in MostCommon(sentences, 20) && e.1 > 1 && line == QuotedLine(e.0, e.1);
      assert multiset(sentences)[e.0] >= 2;
    }
  }

  lemma {:induction false} QuotedLinesFrom(entries: seq<Entry<string>>)
    ensures forall line :: line in QuotedLines(entries) ==>
      exists e :: e in entries && e.1 > 1 && line == QuotedLine(e.0, e.1)
    decreases |entries|
  {
    if |entries| > 0 {
      QuotedLinesFrom(entries[1..]);
      forall line | line in QuotedLines(entries)
        ensures exists e :: e in entries && e.1 > 1 && line == QuotedLine(e.0, e.1)
      {
        if line !in QuotedLines(entries[1..]) {
          assert line == QuotedLine(entries[0].0, entries[0].1);
          assert entries[0] in entries;
        } else {
          var e :| e in entries[1..] && e.1 > 1 && line == QuotedLine(e.0, e.1);
          assert e in entries;
        }
      }
    }
  }
}
