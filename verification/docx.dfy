/** The slice of a Word document that the parser reads and the archiver
    rewrites: paragraphs made of runs, per-section headers and footers, and
    the document's style catalog. Reading and saving files is not modelled. */
module Docx {
  import opened Common
  import Text

  /** A text run with the two font attributes the archiver preserves. A
      font size is a length; zero and `None` are both falsy in Python. */
  datatype Run = Run(text: string, fontName: Option<string>, fontSize: Option<int>)

  /** A paragraph: its runs and the name of its paragraph style. */
  datatype Paragraph = Paragraph(runs: seq<Run>, style: string)

  /** One document section's header and footer paragraphs. */
  datatype DocSection = DocSection(header: seq<Paragraph>, footer: seq<Paragraph>)

  /** Body paragraphs, document sections, and the names of the styles the
      document defines. */
  datatype Document = Document(body: seq<Paragraph>, sections: seq<DocSection>, styles: seq<string>)

  function RunTexts(runs: seq<Run>): seq<string> {
    seq(|runs|, i requires 0 <= i < |runs| => runs[i].text)
  }

  /** `paragraph.text`: the runs' texts, concatenated. */
  function ParagraphText(p: Paragraph): string {
    Text.Concat(RunTexts(p.runs))
  }

  /** `paragraph.text = t`: all runs are removed and a single unformatted
      run holding `t` is added; the paragraph style stays. */
  function SetText(p: Paragraph, t: string): (r: Paragraph)
    ensures ParagraphText(r) == t
    ensures r.style == p.style && |r.runs| == 1
  {
    var r := Paragraph([Run(t, None, None)], p.style);
    assert RunTexts(r.runs) == [t];
    assert [t][1..] == [];
    assert Text.Concat([t]) == t + Text.Concat([]);
    r
  }
}
