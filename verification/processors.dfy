/** The processors: how each one is configured, the instruction it sends
    with every section, which sections it skips, how it filters a reply,
    and the suffix of its output file. The calls to the completion service
    are in the Processing module. */
module Processors {
  import opened Common
  import opened Text

  /** The processor classes. `OpenAIBase` and `Base` are the two generic
      base classes; `Reviewer` and `Reporter` extend `Base` directly, the
      others extend `OpenAIBase`. */
  datatype Kind =
    | Base
    | OpenAIBase
    | Grammar
    | Scientific
    | Summariser
    | Translator
    | Reviewer
    | Reporter

  /** The classes built from a parameter dict. */
  predicate FromParameters(k: Kind) {
    k in {OpenAIBase, Grammar, Scientific, Summariser, Translator}
  }

  /** A configured processor: the attributes its methods read. */
  datatype Processor = Processor(kind: Kind, severity: int, sourceLang: string, targetLang: string, additional: string)

  /** The parameter dict handed to the dict-configured classes; `None`
      stands for an absent key. */
  datatype Parameters = Parameters(
    additional: Option<string>,
    severity: Option<int>,
    sourceLang: Option<string>,
    targetLang: Option<string>)

  // -----------------------------------------------------------------------
  // Severity

  /** `min(max(s, 1), 5)`. */
  function Clamp(s: int): (r: int)
    ensures 1 <= r <= 5
    ensures r == s || (s < 1 && r == 1) || (s > 5 && r == 5)
  {
    if s < 1 then 1 else if s > 5 then 5 else s
  }

  /** Clamping twice is clamping once, and a severity already in range is
      kept. */
  lemma ClampIdempotent(s: int)
    ensures Clamp(Clamp(s)) == Clamp(s)
    ensures 1 <= s <= 5 ==> Clamp(s) == s
  {
  }

  /** The clamp preserves order. */
  lemma ClampMonotone(a: int, b: int)
    requires a <= b
    ensures Clamp(a) <= Clamp(b)
  {
  }

  /** `sev_map.get(severity, 'normal')`. */
  function SeverityLabel(s: int): string {
    if s == 1 then "very lenient"
    else if s == 2 then "lenient"
    else if s == 3 then "normal"
    else if s == 4 then "strict"
    else if s == 5 then "very strict"
    else "normal"
  }

  /** The five levels have five different labels; every other severity
      reads as "normal", the label of level 3. */
  lemma SeverityLabels(a: int, b: int)
    ensures 1 <= a <= 5 && 1 <= b <= 5 && a != b ==> SeverityLabel(a) != SeverityLabel(b)
    ensures (a < 1 || a > 5) ==> SeverityLabel(a) == SeverityLabel(3)
  {
  }

  // -----------------------------------------------------------------------
  // Construction

  /** `__init__` of the dict-configured classes: the additional prompt
      defaults to ""; the two reviewers clamp the severity, 3 when absent;
      the translator requires both languages, and a missing one is a
      KeyError. */
  function FromParams(kind: Kind, params: Parameters): (r: Result<Processor>)
    requires FromParameters(kind)
  {
    var additional := params.additional.GetOr("");
    var severity := if kind == Grammar || kind == Scientific then Clamp(params.severity.GetOr(3)) else 3;
    if kind == Translator then
      if params.sourceLang.None? then Fail(KeyError("source_lang"))
      else if params.targetLang.None? then Fail(KeyError("target_lang"))
      else Ok(Processor(kind, severity, params.sourceLang.value, params.targetLang.value, additional))
    else Ok(Processor(kind, severity, "", "", additional))
  }

  /** `__init__` of the classes configured positionally: the severity is
      stored as given. */
  function FromArguments(kind: Kind, severity: int, sourceLang: string, targetLang: string): Processor
    requires !FromParameters(kind)
  {
    Processor(kind, severity, sourceLang, targetLang, "")
  }

  /** Construction keeps the kind and the additional prompt; the reviewers'
      severity is in [1, 5] and equals the parameter when that is in range
      (3 when absent); only a translator can fail, exactly when a language
      is missing, with a KeyError naming the first missing key. */
  lemma FromParamsSpec(kind: Kind, params: Parameters)
    requires FromParameters(kind)
    ensures FromParams(kind, params).Fail? <==>
      kind == Translator && (params.sourceLang.None? || params.targetLang.None?)
    ensures FromParams(kind, params).Fail? ==>
      FromParams(kind, params).error ==
        KeyError(if params.sourceLang.None? then "source_lang" else "target_lang")
    ensures FromParams(kind, params).Ok? ==>
      var p := FromParams(kind, params).value;
      p.kind == kind && p.additional == params.additional.GetOr("") &&
      ((kind == Grammar || kind == Scientific) ==>
        p.severity == Clamp(params.severity.GetOr(3)) &&
        1 <= p.severity <= 5 &&
        (params.severity.None? ==> p.severity == 3) &&
        (params.severity.Some? && 1 <= params.severity.value <= 5 ==> p.severity == params.severity.value)) &&
      (kind == Translator ==> p.sourceLang == params.sourceLang.value && p.targetLang == params.targetLang.value)
  {
  }

  // -----------------------------------------------------------------------
  // Instructions

  const GrammarPrompt: string :=
    "You are a reviewer. You will receive text. If any grammatical errors, typos, or inconsistencies "
    + "are present, list them and provide suggestions on how to fix each of them. "
    + "Your response should be in the same language as the input text. "
    + "If you find no errors, return: NO SERIOUS ERRORS HERE."

  const ScientificPrompt: string :=
    "You are a scientific reviewer. You will receive a piece of text. Your task is to:"
    + " 1) Identify any factual or scientific errors, referencing the most reliable academic research."
    + " 2) Provide the correct information or clarification for each error."
    + " 3) Deliver your analysis in the same language as the input text."
    + " If there are no factual or scientific inaccuracies, respond with: NO FACTUAL ERRORS HERE."

  const SummariserPrompt: string :=
    "You are an expert copywriter expert in summarisation. You will receive a piece of text. Your task is to: "
    + "1) Generate a summarised version that captures all the most relevant point of the text. "
    + "2) Ensure the summary is accurate, clear, and written in the same language as the input text. "
    + "If text cannot be translated as it's a name, number or symbols do not comment that. Simply return with the original text. "

  /** The adjacent literals of the source join without a space here. */
  const ReviewerPrompt: string :=
    "You are a reviewer. You will receive text and return grammatical "
    + "errors and how to fix them. If no such errors, please just"
    + "return 'NO SERIOUS ERRORS HERE'."

  /** A format string, parsed: literal text and the two named fields. */
  datatype Piece = Literal(text: string) | Src | Tgt

  const TranslatorHead: string := "You are a translator. Translate the given text from "
  const TranslatorMid: string := " to "
  const TranslatorTail: string :=
    ". "
    + "Do not add comments, only return the translated text. "
    + "If text is empty do not comment that. Simply return with an empty string yourself."
    + "If text cannot be translated as it's a name, number or symbols do not comment that. Simply return with the original text."
    + "Make sure that's a high-quality translation, where things aren't just rendered literally, "
    + "but the tone, verbosity and style is inferred from the original language and perfectly "
    + "adapted into the destination language. "

  /** The translator's template: "{src}" and "{tgt}" inside literal text. */
  const TranslatorTemplate: seq<Piece> :=
    [Literal(TranslatorHead), Src, Literal(TranslatorMid), Tgt, Literal(TranslatorTail)]

  /** `template.format(src=…, tgt=…)`: each field is replaced by its value,
      literal text is copied. */
  function Format(template: seq<Piece>, src: string, tgt: string): string
    decreases |template|
  {
    if |template| == 0 then ""
    else
      var head := match template[0]
        case Literal(t) => t
        case Src => src
        case Tgt => tgt;
      head + Format(template[1..], src, tgt)
  }

  /** The translator's instruction is the template with the source
      language, then the target language, put in place of the fields. */
  lemma TranslatorInstruction(src: string, tgt: string)
    ensures Format(TranslatorTemplate, src, tgt) == TranslatorHead + src + TranslatorMid + tgt + TranslatorTail
  {
    var h, m, t := TranslatorHead, TranslatorMid, TranslatorTail;
    var p4: seq<Piece> := [Literal(t)];
    var p3: seq<Piece> := [Tgt] + p4;
    var p2: seq<Piece> := [Literal(m)] + p3;
    var p1: seq<Piece> := [Src] + p2;
    assert TranslatorTemplate == [Literal(h)] + p1;
    assert p4[1..] == [];
    assert Format(p4, src, tgt) == t;
    assert p3[1..] == p4;
    assert Format(p3, src, tgt) == tgt + t;
    assert p2[1..] == p3;
    assert Format(p2, src, tgt) == m + (tgt + t);
    assert p1[1..] == p2;
    assert Format(p1, src, tgt) == src + (m + (tgt + t));
    assert ([Literal(h)] + p1)[1..] == p1;
    assert Format(TranslatorTemplate, src, tgt) == h + (src + (m + (tgt + t)));
  }

  /** Equal strings with equal prefixes and suffixes have equal middles. */
  lemma CancelAffixes(h: string, x: string, y: string, s: string)
    requires h + x + s == h + y + s
    ensures x == y
  {
    var a := h + x + s;
    assert a[|h|..|a| - |s|] == x;
    assert (h + y + s)[|h|..|a| - |s|] == y;
  }

  /** `build_prompt`: "" for the base classes and the reporter; the fixed
      text for the summariser; the two reviewers append the severity label
      after a newline; the translator fills in its languages. */
  function BuildPrompt(p: Processor): string {
    match p.kind
    case Base => ""
    case OpenAIBase => ""
    case Reporter => ""
    case Summariser => SummariserPrompt
    case Grammar => GrammarPrompt + "\nDo it with a severity level that's " + SeverityLabel(p.severity)
    case Reviewer => ReviewerPrompt + "\nDo it with a severity level that's " + SeverityLabel(p.severity)
    case Scientific => ScientificPrompt + "\nDo this scientific check with a severity level that's " + SeverityLabel(p.severity)
    case Translator => Format(TranslatorTemplate, p.sourceLang, p.targetLang)
  }

  /** The reviewers' instructions end with the label of their severity, so
      two severities with different labels give different instructions; an
      unclamped reviewer severity outside 1..5 reads as "normal". */
  lemma ReviewerPromptLabel(p: Processor)
    requires p.kind in {Grammar, Reviewer, Scientific}
    ensures EndsWith(BuildPrompt(p), SeverityLabel(p.severity))
    ensures (p.severity < 1 || p.severity > 5) ==> EndsWith(BuildPrompt(p), "normal")
  {
    var level := SeverityLabel(p.severity);
    var head := if p.kind == Scientific then ScientificPrompt + "\nDo this scientific check with a severity level that's "
                else if p.kind == Grammar then GrammarPrompt + "\nDo it with a severity level that's "
                else ReviewerPrompt + "\nDo it with a severity level that's ";
    assert BuildPrompt(p) == head + level;
    EndsWithAppend(head, level);
    SeverityLabels(p.severity, 3);
  }

  /** Two translators that differ in one language send different
      instructions: the languages are substituted, never lost. */
  lemma TranslatorPromptInjective(p: Processor, q: Processor)
    requires p.kind == Translator && q.kind == Translator
    requires BuildPrompt(p) == BuildPrompt(q)
    requires p.sourceLang == q.sourceLang || p.targetLang == q.targetLang
    ensures p.sourceLang == q.sourceLang && p.targetLang == q.targetLang
  {
    TranslatorInstruction(p.sourceLang, p.targetLang);
    TranslatorInstruction(q.sourceLang, q.targetLang);
    var h := TranslatorHead;
    var m := TranslatorMid;
    var t := TranslatorTail;
    if p.targetLang == q.targetLang {
      var sfx := m + p.targetLang + t;
      assert h + p.sourceLang + m + p.targetLang + t == h + p.sourceLang + sfx;
      assert h + q.sourceLang + m + q.targetLang + t == h + q.sourceLang + sfx;
      CancelAffixes(h, p.sourceLang, q.sourceLang, sfx);
    } else {
      var pre := h + p.sourceLang + m;
      CancelAffixes(pre, p.targetLang, q.targetLang, t);
    }
  }

  // -----------------------------------------------------------------------
  // Replies, skips and suffixes

  /** The reply a reviewer sends when it finds nothing, lower-cased. */
  function NothingFound(k: Kind): Option<string> {
    if k == Grammar || k == Reviewer then Some("no serious errors here")
    else if k == Scientific then Some("no factual errors here")
    else None
  }

  /** `postprocess`: a reviewer drops a reply that, lower-cased, is exactly
      its "nothing found" sentence; every other reply, and every reply to
      the other processors, is kept unchanged. */
  function Postprocess(p: Processor, response: string): (r: Option<string>)
    ensures r.None? || r == Some(response)
  {
    if NothingFound(p.kind).Some? && Lower(response) == NothingFound(p.kind).value then None
    else Some(response)
  }

  /** The filter matches the whole reply only: the reviewer's own
      upper-case sentence is dropped, the same sentence with its final
      period is kept. */
  lemma PostprocessExact()
    ensures Postprocess(Processor(Grammar, 3, "", "", ""), "NO SERIOUS ERRORS HERE") == None
    ensures Postprocess(Processor(Grammar, 3, "", "", ""), "NO SERIOUS ERRORS HERE.") == Some("NO SERIOUS ERRORS HERE.")
    ensures Postprocess(Processor(Scientific, 3, "", "", ""), "No Factual Errors Here") == None
  {
    GrammarDropsOwnReply(Processor(Grammar, 3, "", "", ""));
    GrammarKeepsDotted(Processor(Grammar, 3, "", "", ""));
    ScientificDropsOwnReply(Processor(Scientific, 3, "", "", ""));
  }

  lemma GrammarKeepsDotted(p: Processor)
    requires p.kind == Grammar
    ensures Postprocess(p, "NO SERIOUS ERRORS HERE.") == Some("NO SERIOUS ERRORS HERE.")
  {
    assert |Lower("NO SERIOUS ERRORS HERE.")| == 23;
  }

  lemma ScientificDropsOwnReply(p: Processor)
    requires p.kind == Scientific
    ensures Postprocess(p, "No Factual Errors Here").None?
  {
    assert Lower("No Factual Errors Here") == "no factual errors here";
  }

  /** The grammar reviewer's own upper-case sentence is dropped. */
  lemma GrammarDropsOwnReply(p: Processor)
    requires p.kind == Grammar
    ensures Postprocess(p, "NO SERIOUS ERRORS HERE").None?
  {
    assert Lower("NO SERIOUS ERRORS HERE") == "no serious errors here";
  }

  /** A reply is dropped exactly when it is the "nothing found" sentence,
      in any letter case, of a reviewer. */
  lemma PostprocessDrops(p: Processor, response: string)
    ensures Postprocess(p, response).None? <==>
      p.kind in {Grammar, Reviewer, Scientific} && Lower(response) == NothingFound(p.kind).value
  {
  }

  /** `do_not_process`: blank content for every processor; the scientific
      reviewer also skips fewer than 2 words, the summariser fewer than 6. */
  predicate DoNotProcess(p: Processor, content: string) {
    Strip(content) == "" ||
    (p.kind == Scientific && WordCount(content) < 2) ||
    (p.kind == Summariser && WordCount(content) < 6)
  }

  /** The minimum number of words a processor needs to send a section. */
  function MinWords(k: Kind): nat {
    if k == Scientific then 2 else if k == Summariser then 6 else 1
  }

  /** Since blank content has no words, the skip rule is a word-count
      threshold alone. */
  lemma DoNotProcessIsThreshold(p: Processor, content: string)
    ensures DoNotProcess(p, content) <==> WordCount(content) < MinWords(p.kind)
  {
    NoWordsIffBlank(content);
  }

  /** `output_suffix`. */
  function OutputSuffix(p: Processor): string {
    match p.kind
    case Base => "processed"
    case OpenAIBase => "ai_processed"
    case Grammar => "reviewed"
    case Reviewer => "reviewed"
    case Scientific => "scientifically_reviewed"
    case Summariser => "summarised"
    case Translator => "translated_" + p.sourceLang + "_" + p.targetLang
    case Reporter => "report"
  }

  /** Suffixes tell the processors apart, except the two grammar reviewers,
      which share "reviewed"; a translator's suffix names its languages. */
  lemma OutputSuffixes(p: Processor, q: Processor)
    ensures p.kind == Translator ==>
      StartsWith(OutputSuffix(p), "translated_") && EndsWith(OutputSuffix(p), "_" + p.targetLang)
    ensures p.kind != q.kind && OutputSuffix(p) == OutputSuffix(q) ==>
      p.kind in {Grammar, Reviewer} && q.kind in {Grammar, Reviewer}
  {
    var tp := "translated_";
    if p.kind == Translator {
      assert OutputSuffix(p) == tp + (p.sourceLang + "_" + p.targetLang);
      assert OutputSuffix(p) == (tp + p.sourceLang) + ("_" + p.targetLang);
    }
    if p.kind != q.kind && OutputSuffix(p) == OutputSuffix(q) {
      SuffixNotTranslated(p);
      SuffixNotTranslated(q);
    }
  }

  /** Only a translator's suffix starts with 't'. */
  lemma SuffixNotTranslated(p: Processor)
    ensures |OutputSuffix(p)| > 0
    ensures OutputSuffix(p)[0] == 't' <==> p.kind == Translator
  {
  }
}
