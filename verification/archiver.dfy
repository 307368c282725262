/** The archiver: the output file's name and format, the plain-text writer,
    and the two ways of writing results back into a copy of the source Word
    document (replacing section contents by text, or writing id-keyed
    results into the paragraphs they came from). */
module Archiver {
  import opened Common
  import opened Text
  import Paths
  import opened Docx

  // -----------------------------------------------------------------------
  // Output target

  /** The file the archiver writes: a text file, or a Word document written
      in the simple or the advanced mode. */
  datatype Target = TxtFile(name: string) | DocxFile(name: string, advanced: bool)

  /** `<stem>_<suffix>`, where the stem is the input's file name without
      its directory and its extension. */
  function OutputName(docPath: string, suffix: string): string {
    Paths.SplitExt(Paths.BaseName(docPath)).0 + "_" + suffix
  }

  /** The dispatch of `archive_document`: "txt" and "docx" are the only
      formats; anything else is a ValueError. */
  function ArchiveTarget(docPath: string, suffix: string, format: string, docxInDocx: bool): Result<Target> {
    var full := OutputName(docPath, suffix);
    if format == "txt" then Ok(TxtFile(full + ".txt"))
    else if format == "docx" then Ok(DocxFile(full + ".docx", docxInDocx))
    else Fail(ValueError("Unrecognised output format: " + format))
  }

  /** A ".txt" or ".docx" appended to a stem that ends in neither a
      separator nor a dot is the extension `splitext` finds again. */
  lemma FormatExtension(stem: string, format: string)
    requires format == "txt" || format == "docx"
    requires |stem| > 0 && stem[|stem| - 1] != '/' && stem[|stem| - 1] != '.'
    ensures Paths.SplitExt(stem + "." + format) == (stem, "." + format)
  {
    var e := "." + format;
    assert e[1..] == format;
    assert stem + "." + format == stem + e;
    Paths.ExtOfAppended(stem, e);
  }

  /** Only the two known formats are accepted, anything else is a
      ValueError; the advanced mode is chosen exactly for "docx" with the
      docx-in-docx flag; the file name is the output name plus the format's
      extension. */
  lemma ArchiveTargetSpec(docPath: string, suffix: string, format: string, docxInDocx: bool)
    ensures ArchiveTarget(docPath, suffix, format, docxInDocx).Ok? <==> format == "txt" || format == "docx"
    ensures format != "txt" && format != "docx" ==>
      ArchiveTarget(docPath, suffix, format, docxInDocx) == Fail(ValueError("Unrecognised output format: " + format))
    ensures ArchiveTarget(docPath, suffix, format, docxInDocx).Ok? ==>
      var t := ArchiveTarget(docPath, suffix, format, docxInDocx).value;
      (t.DocxFile? && t.advanced <==> format == "docx" && docxInDocx) &&
      t.name == OutputName(docPath, suffix) + "." + format
  {
    if format == "txt" {
      assert "." + format == ".txt";
    } else if format == "docx" {
      assert "." + format == ".docx";
    }
  }

  /** `splitext` on the written file's name gives back the output name and
      the format's extension, whenever the suffix does not end in a
      separator or a dot. */
  lemma ArchiveTargetExtension(docPath: string, suffix: string, format: string, docxInDocx: bool)
    requires format == "txt" || format == "docx"
    requires |suffix| > 0 && suffix[|suffix| - 1] != '/' && suffix[|suffix| - 1] != '.'
    ensures Paths.SplitExt(ArchiveTarget(docPath, suffix, format, docxInDocx).value.name)
      == (OutputName(docPath, suffix), "." + format)
  {
    var stem := OutputName(docPath, suffix);
    LastOfAppend(Paths.SplitExt(Paths.BaseName(docPath)).0 + "_", suffix);
    FormatExtension(stem, format);
    ArchiveTargetSpec(docPath, suffix, format, docxInDocx);
    if format == "txt" {
      assert stem + "." + format == stem + ".txt";
    } else {
      assert stem + "." + format == stem + ".docx";
    }
  }

  lemma LastOfAppend(a: string, b: string)
    requires |b| > 0
    ensures (a + b)[|a + b| - 1] == b[|b| - 1]
  {
  }

  /** The output name depends on the input's file name only, not on the
      directory it was read from. */
  lemma OutputNameIgnoresDirectory(dir: string, file: string, suffix: string)
    ensures OutputName(dir + "/" + file, suffix) == OutputName(file, suffix)
  {
    Paths.BaseNameAfterSep(dir, file);
  }

  // -----------------------------------------------------------------------
  // Plain-text output

  /** The separator line: forty '=' characters. */
  const Rule: string := "========================================"

  /** What is written for the result at zero-based position `i`. */
  function Block(i: nat, result: string, addTitle: bool): string {
    (if addTitle then "Section " + NatToString(i + 1) + ":\n" else "") + result + "\n" + Rule + "\n"
  }

  /** The file content, written result by result. */
  function TxtBody(results: seq<string>, addTitle: bool): string
    decreases |results|
  {
    if |results| == 0 then ""
    else TxtBody(results[..|results| - 1], addTitle) + Block(|results| - 1, results[|results| - 1], addTitle)
  }

  /** `_save_as_txt`: no file at all for an empty result list. */
  function SaveAsTxt(results: seq<string>, addTitle: bool): (r: Option<string>)
    ensures r.None? <==> |results| == 0
  {
    if |results| == 0 then None else Some(TxtBody(results, addTitle))
  }

  /** The blocks of a result list, each numbered by its position. */
  function Blocks(results: seq<string>, addTitle: bool): (r: seq<string>)
    ensures |r| == |results|
  {
    seq(|results|, i requires 0 <= i < |results| => Block(i, results[i], addTitle))
  }

  /** The written file is the concatenation of the numbered blocks. */
  lemma {:induction false} TxtBodyIsBlocks(results: seq<string>, addTitle: bool)
    ensures TxtBody(results, addTitle) == Concat(Blocks(results, addTitle))
    decreases |results|
  {
    if |results| > 0 {
      var n := |results| - 1;
      TxtBodyIsBlocks(results[..n], addTitle);
      assert Blocks(results, addTitle) == Blocks(results[..n], addTitle) + [Block(n, results[n], addTitle)];
      ConcatAppend(Blocks(results[..n], addTitle), [Block(n, results[n], addTitle)]);
      assert Concat([Block(n, results[n], addTitle)]) == Block(n, results[n], addTitle) + Concat([]);
    }
  }

  /** Writing is append-only: the file after the first `n` results is a
      prefix of the complete file. */
  lemma {:induction false} TxtBodyPrefix(results: seq<string>, n: nat, addTitle: bool)
    requires n <= |results|
    ensures StartsWith(TxtBody(results, addTitle), TxtBody(results[..n], addTitle))
    decreases |results|
  {
    if n < |results| {
      var m := |results| - 1;
      TxtBodyPrefix(results[..m], n, addTitle);
      assert results[..m][..n] == results[..n];
      var whole := TxtBody(results, addTitle);
      assert whole == TxtBody(results[..m], addTitle) + Block(m, results[m], addTitle);
    } else {
      assert results[..n] == results;
    }
  }

  /** The total length of a list of strings. */
  function TotalLength(xs: seq<string>): nat {
    if |xs| == 0 then 0 else TotalLength(xs[..|xs| - 1]) + |xs[|xs| - 1]|
  }

  /** Without titles, every result costs its own length plus the newline,
      the rule and the newline after it. */
  lemma {:induction false} TxtBodyLength(results: seq<string>)
    ensures |TxtBody(results, false)| == TotalLength(results) + 42 * |results|
    decreases |results|
  {
    if |results| > 0 {
      TxtBodyLength(results[..|results| - 1]);
    }
  }

  /** A non-empty file ends with the rule line. */
  lemma TxtBodyEndsWithRule(results: seq<string>, addTitle: bool)
    requires |results| > 0
    ensures EndsWith(TxtBody(results, addTitle), Rule + "\n")
  {
    var b := TxtBody(results, addTitle);
    var last := Block(|results| - 1, results[|results| - 1], addTitle);
    assert b == TxtBody(results[..|results| - 1], addTitle) + last;
    assert last[|last| - 41..] == Rule + "\n";
  }

  /** With titles, the file opens with "Section 1:" and the first result. */
  lemma TxtBodyFirstTitle(results: seq<string>)
    requires |results| > 0
    ensures StartsWith(TxtBody(results, true), "Section 1:\n" + results[0] + "\n")
  {
    var head := "Section 1:\n" + results[0] + "\n";
    var first := TxtBody(results[..1], true);
    assert results[..1] == [results[0]];
    SingleBody(results[0], true);
    FirstBlock(results[0]);
    TxtBodyPrefix(results, 1, true);
    StartsWithTrans(TxtBody(results, true), first, head);
  }

  /** A single result is written as one block. */
  lemma SingleBody(result: string, addTitle: bool)
    ensures TxtBody([result], addTitle) == Block(0, result, addTitle)
  {
    assert [result][..0] == [];
  }

  /** The first titled block opens with "Section 1:" and its result. */
  lemma FirstBlock(result: string)
    ensures StartsWith(Block(0, result, true), "Section 1:\n" + result + "\n")
  {
    assert NatToString(1) == "1";
    var head := "Section 1:\n" + result + "\n";
    assert Block(0, result, true) == head + (Rule + "\n");
    StartsWithAppend(head, Rule + "\n");
  }

  // -----------------------------------------------------------------------
  // Content-keyed mapping (simple Word mode)

  /** A Python dict from strings to strings, as its items in insertion
      order. */
  type TextMap = seq<(string, string)>

  function Keys(m: TextMap): seq<string> {
    Firsts(m)
  }

  predicate Distinct(xs: seq<string>) {
    forall i, j :: 0 <= i < j < |xs| ==> xs[i] != xs[j]
  }

  /** `m.get(k)`. */
  function Lookup(m: TextMap, k: string): Option<string>
    decreases |m|
  {
    if |m| == 0 then None
    else if m[0].0 == k then Some(m[0].1)
    else Lookup(m[1..], k)
  }

  /** `m[k] = v`: an existing key keeps its place and takes the new value;
      a new key goes last. */
  function Put(m: TextMap, k: string, v: string): TextMap
    decreases |m|
  {
    if |m| == 0 then [(k, v)]
    else if m[0].0 == k then [(k, v)] + m[1..]
    else [m[0]] + Put(m[1..], k, v)
  }

  lemma KeysCons(m: TextMap)
    requires |m| > 0
    ensures Keys(m) == [m[0].0] + Keys(m[1..])
  {
  }

  /** Dict assignment: the new value is found under its key, every other
      key keeps its value, and the key order grows only by a new key. */
  lemma PutFacts(m: TextMap, k: string, v: string)
    ensures Keys(Put(m, k, v)) == if k in Keys(m) then Keys(m) else Keys(m) + [k]
    ensures forall k' :: Lookup(Put(m, k, v), k') == if k' == k then Some(v) else Lookup(m, k')
    ensures Distinct(Keys(m)) ==> Distinct(Keys(Put(m, k, v)))
  {
    PutKeys(m, k, v);
    forall k' ensures Lookup(Put(m, k, v), k') == if k' == k then Some(v) else Lookup(m, k') {
      PutLookup(m, k, v, k');
    }
    if Distinct(Keys(m)) && k !in Keys(m) {
      DistinctSnoc(Keys(m), k);
    }
  }

  lemma {:induction false} PutKeys(m: TextMap, k: string, v: string)
    ensures Keys(Put(m, k, v)) == if k in Keys(m) then Keys(m) else Keys(m) + [k]
    decreases |m|
  {
    var r := Put(m, k, v);
    if |m| == 0 {
      assert Keys(r) == [k];
    } else {
      KeysCons(m);
      KeysCons(r);
      if m[0].0 == k {
        assert r[1..] == m[1..];
      } else {
        assert r[1..] == Put(m[1..], k, v);
        PutKeys(m[1..], k, v);
      }
    }
  }

  lemma {:induction false} PutLookup(m: TextMap, k: string, v: string, k': string)
    ensures Lookup(Put(m, k, v), k') == if k' == k then Some(v) else Lookup(m, k')
    decreases |m|
  {
    var r := Put(m, k, v);
    if |m| > 0 {
      if m[0].0 == k {
        assert r[1..] == m[1..];
      } else {
        assert r[1..] == Put(m[1..], k, v);
        PutLookup(m[1..], k, v, k');
      }
    }
  }

  lemma DistinctSnoc(xs: seq<string>, x: string)
    requires Distinct(xs) && x !in xs
    ensures Distinct(xs + [x])
  {
    forall i, j | 0 <= i < j < |xs + [x]| ensures (xs + [x])[i] != (xs + [x])[j] {
      assert (xs + [x])[i] == xs[i];
      if j == |xs| {
        assert xs[i] in xs;
      } else {
        assert (xs + [x])[j] == xs[j];
      }
    }
  }

  /** `map_sections`, first `n` sections: each section's content maps to
      the result at its position, or to itself when the results run out. */
  function MapPrefix(sections: seq<Section>, results: seq<string>, n: nat): TextMap
    requires n <= |sections|
  {
    if n == 0 then []
    else Put(MapPrefix(sections, results, n - 1), sections[n - 1].content, ValueFor(sections, results, n - 1))
  }

  function ValueFor(sections: seq<Section>, results: seq<string>, i: nat): string
    requires i < |sections|
  {
    if i < |results| then results[i] else sections[i].content
  }

  function MapSections(sections: seq<Section>, results: seq<string>): TextMap {
    MapPrefix(sections, results, |sections|)
  }

  /** The contents of the first `n` sections in first-occurrence order,
      without repeats. */
  function FirstOccurrences(sections: seq<Section>, n: nat): seq<string>
    requires n <= |sections|
  {
    if n == 0 then []
    else
      var d := FirstOccurrences(sections, n - 1);
      if sections[n - 1].content in d then d else d + [sections[n - 1].content]
  }

  /** No later section among the first `n` has the same content as
      section `i`. */
  predicate LastWithContent(sections: seq<Section>, n: nat, i: nat)
    requires i < n <= |sections|
  {
    forall j :: i < j < n ==> sections[j].content != sections[i].content
  }

  /** The keys of `map_sections` over the first `n` sections are their
      distinct contents, in the order they first appear. */
  lemma {:induction false} MapPrefixKeys(sections: seq<Section>, results: seq<string>, n: nat)
    requires n <= |sections|
    ensures Keys(MapPrefix(sections, results, n)) == FirstOccurrences(sections, n)
    ensures Distinct(Keys(MapPrefix(sections, results, n)))
    decreases n
  {
    if n > 0 {
      MapPrefixKeys(sections, results, n - 1);
      PutFacts(MapPrefix(sections, results, n - 1), sections[n - 1].content, ValueFor(sections, results, n - 1));
    }
  }

  /** A content maps to the value of its last occurrence. */
  lemma {:induction false} MapPrefixLast(sections: seq<Section>, results: seq<string>, n: nat, i: nat)
    requires i < n <= |sections|
    requires LastWithContent(sections, n, i)
    ensures Lookup(MapPrefix(sections, results, n), sections[i].content) == Some(ValueFor(sections, results, i))
    decreases n
  {
    PutLookup(MapPrefix(sections, results, n - 1), sections[n - 1].content, ValueFor(sections, results, n - 1), sections[i].content);
    if i < n - 1 {
      assert sections[n - 1].content != sections[i].content;
      assert LastWithContent(sections, n - 1, i);
      MapPrefixLast(sections, results, n - 1, i);
    }
  }

  /** A string that is no section's content is not a key. */
  lemma {:induction false} MapPrefixAbsent(sections: seq<Section>, results: seq<string>, n: nat, k: string)
    requires n <= |sections|
    requires forall i :: 0 <= i < n ==> sections[i].content != k
    ensures Lookup(MapPrefix(sections, results, n), k) == None
    decreases n
  {
    if n > 0 {
      PutLookup(MapPrefix(sections, results, n - 1), sections[n - 1].content, ValueFor(sections, results, n - 1), k);
      MapPrefixAbsent(sections, results, n - 1, k);
    }
  }

  /** `map_sections`: one key per distinct content, in the order the
      contents first appear; a content that occurs in several sections maps
      to the value of its last occurrence (its own content when the results
      run out first); nothing else is a key. */
  lemma MapSectionsSpec(sections: seq<Section>, results: seq<string>)
    ensures Keys(MapSections(sections, results)) == FirstOccurrences(sections, |sections|)
    ensures Distinct(Keys(MapSections(sections, results)))
    ensures forall i :: 0 <= i < |sections| && LastWithContent(sections, |sections|, i) ==>
      Lookup(MapSections(sections, results), sections[i].content) == Some(ValueFor(sections, results, i))
    ensures forall k :: (forall i :: 0 <= i < |sections| ==> sections[i].content != k) ==>
      Lookup(MapSections(sections, results), k) == None
  {
    MapPrefixKeys(sections, results, |sections|);
    forall i | 0 <= i < |sections| && LastWithContent(sections, |sections|, i)
      ensures Lookup(MapSections(sections, results), sections[i].content) == Some(ValueFor(sections, results, i))
    {
      MapPrefixLast(sections, results, |sections|, i);
    }
    forall k | (forall i :: 0 <= i < |sections| ==> sections[i].content != k)
      ensures Lookup(MapSections(sections, results), k) == None
    {
      MapPrefixAbsent(sections, results, |sections|, k);
    }
  }

  /** Every item maps a key to itself. */
  predicate IsIdentity(m: TextMap) {
    forall i :: 0 <= i < |m| ==> m[i].0 == m[i].1
  }

  lemma {:induction false} PutIdentity(m: TextMap, k: string)
    requires IsIdentity(m)
    ensures IsIdentity(Put(m, k, k))
    decreases |m|
  {
    if |m| > 0 && m[0].0 != k {
      PutIdentity(m[1..], k);
    }
  }

  /** When every section's result is its own content, the mapping maps
      every key to itself. */
  lemma {:induction false} MapUnchangedIsIdentity(sections: seq<Section>, results: seq<string>, n: nat)
    requires n <= |sections|
    requires forall i :: 0 <= i < |results| && i < |sections| ==> results[i] == sections[i].content
    ensures IsIdentity(MapPrefix(sections, results, n))
    decreases n
  {
    if n > 0 {
      MapUnchangedIsIdentity(sections, results, n - 1);
      PutIdentity(MapPrefix(sections, results, n - 1), sections[n - 1].content);
    }
  }

  // -----------------------------------------------------------------------
  // replace_text_in_sections

  /** One item of the replacement loop: a blank key, or one that does not
      occur in the current text, changes nothing. */
  function ReplaceStep(text: string, original: string, translated: string): string {
    if |original| > 0 && Strip(original) != "" && Contains(text, original) then Replace(text, original, translated)
    else text
  }

  /** The replacement loop, in the dict's insertion order; each item works
      on the text the previous items produced. */
  function ReplaceAll(text: string, m: TextMap): string
    decreases |m|
  {
    if |m| == 0 then text else ReplaceAll(ReplaceStep(text, m[0].0, m[0].1), m[1..])
  }

  /** The loop over `m1 + m2` is the loop over `m1` followed by the loop
      over `m2`. */
  lemma {:induction false} ReplaceAllAppend(text: string, m1: TextMap, m2: TextMap)
    ensures ReplaceAll(text, m1 + m2) == ReplaceAll(ReplaceAll(text, m1), m2)
    decreases |m1|
  {
    if |m1| == 0 {
      assert m1 + m2 == m2;
    } else {
      assert (m1 + m2)[1..] == m1[1..] + m2;
      ReplaceAllAppend(ReplaceStep(text, m1[0].0, m1[0].1), m1[1..], m2);
    }
  }

  /** The items whose key is not blank. */
  function NonBlank(m: TextMap): (r: TextMap)
    ensures |r| <= |m|
    decreases |m|
  {
    if |m| == 0 then []
    else if Strip(m[0].0) != "" then [m[0]] + NonBlank(m[1..])
    else NonBlank(m[1..])
  }

  /** Blank keys are never applied: dropping them changes nothing. */
  lemma {:induction false} ReplaceAllSkipsBlank(text: string, m: TextMap)
    ensures ReplaceAll(text, m) == ReplaceAll(text, NonBlank(m))
    decreases |m|
  {
    if |m| > 0 {
      StripFacts(m[0].0);
      if Strip(m[0].0) != "" {
        var r := NonBlank(m);
        assert r[0] == m[0] && r[1..] == NonBlank(m[1..]);
        ReplaceAllSkipsBlank(ReplaceStep(text, m[0].0, m[0].1), m[1..]);
      } else {
        ReplaceAllSkipsBlank(text, m[1..]);
      }
    }
  }

  /** A text in which no key occurs comes back unchanged. */
  lemma {:induction false} ReplaceAllAbsent(text: string, m: TextMap)
    requires forall i :: 0 <= i < |m| ==> !Contains(text, m[i].0)
    ensures ReplaceAll(text, m) == text
    decreases |m|
  {
    if |m| > 0 {
      ReplaceAllAbsent(text, m[1..]);
    }
  }

  /** A mapping that maps every key to itself changes no text. */
  lemma {:induction false} ReplaceAllIdentity(text: string, m: TextMap)
    requires IsIdentity(m)
    ensures ReplaceAll(text, m) == text
    decreases |m|
  {
    if |m| > 0 {
      ReplaceAllIdentity(text, m[1..]);
    }
  }

  /** A paragraph whose whole text is a non-blank section content is
      replaced by that section's result. */
  lemma ReplaceAllWhole(c: string, r: string)
    requires Strip(c) != ""
    ensures ReplaceAll(c, [(c, r)]) == r
  {
    assert |c| > 0;
    assert c[..|c|] == c;
    assert Contains(c, c);
    ReplaceWhole(c, r);
    assert ReplaceStep(c, c, r) == r;
    assert [(c, r)][1..] == [];
  }

  // -----------------------------------------------------------------------
  // Simple Word mode

  /** `_generate_docx`: every body paragraph's text is rewritten through
      the content mapping and set back, which leaves one unformatted run. */
  function GenerateSimple(doc: Document, sections: seq<Section>, results: seq<string>): (r: Document)
    ensures |r.body| == |doc.body| && r.sections == doc.sections && r.styles == doc.styles
    ensures forall i :: 0 <= i < |r.body| ==> r.body[i].style == doc.body[i].style && |r.body[i].runs| == 1
    ensures forall i :: 0 <= i < |r.body| ==>
      ParagraphText(r.body[i]) == ReplaceAll(ParagraphText(doc.body[i]), MapSections(sections, results))
  {
    Document(RewriteBody(doc.body, MapSections(sections, results)), doc.sections, doc.styles)
  }

  /** Each paragraph reads back its replaced text, keeps its style and is
      left with one unformatted run. */
  function RewriteBody(body: seq<Paragraph>, m: TextMap): (r: seq<Paragraph>)
    ensures |r| == |body|
    ensures forall i :: 0 <= i < |body| ==>
      ParagraphText(r[i]) == ReplaceAll(ParagraphText(body[i]), m) && r[i].style == body[i].style
    ensures forall i :: 0 <= i < |body| ==>
      |r[i].runs| == 1 && r[i].runs[0].fontName.None? && r[i].runs[0].fontSize.None?
  {
    seq(|body|, i requires 0 <= i < |body| => SetText(body[i], ReplaceAll(ParagraphText(body[i]), m)))
  }

  /** A paragraph whose text holds none of the section contents keeps its
      text. */
  lemma GenerateSimpleUntouched(doc: Document, sections: seq<Section>, results: seq<string>, i: nat)
    requires i < |doc.body|
    requires forall j :: 0 <= j < |sections| ==> !Contains(ParagraphText(doc.body[i]), sections[j].content)
    ensures ParagraphText(GenerateSimple(doc, sections, results).body[i]) == ParagraphText(doc.body[i])
  {
    var m := MapSections(sections, results);
    var text := ParagraphText(doc.body[i]);
    MapPrefixKeys(sections, results, |sections|);
    FirstOccurrencesMembers(sections, |sections|);
    forall k | 0 <= k < |m| ensures !Contains(text, m[k].0) {
      assert Keys(m)[k] == m[k].0;
      assert m[k].0 in FirstOccurrences(sections, |sections|);
    }
    ReplaceAllAbsent(text, m);
  }

  /** Every key of the mapping is the content of one of the sections. */
  lemma {:induction false} FirstOccurrencesMembers(sections: seq<Section>, n: nat)
    requires n <= |sections|
    ensures forall k :: k in FirstOccurrences(sections, n) ==>
      exists j :: 0 <= j < n && sections[j].content == k
    decreases n
  {
    if n > 0 {
      FirstOccurrencesMembers(sections, n - 1);
    }
  }

  /** When every result equals its section's content, the simple mode
      leaves every paragraph's text as it was. */
  lemma GenerateSimpleUnchanged(doc: Document, sections: seq<Section>, results: seq<string>)
    requires forall i :: 0 <= i < |results| && i < |sections| ==> results[i] == sections[i].content
    ensures forall i :: 0 <= i < |doc.body| ==>
      ParagraphText(GenerateSimple(doc, sections, results).body[i]) == ParagraphText(doc.body[i])
  {
    var m := MapSections(sections, results);
    MapUnchangedIsIdentity(sections, results, |sections|);
    forall i | 0 <= i < |doc.body|
      ensures ParagraphText(GenerateSimple(doc, sections, results).body[i]) == ParagraphText(doc.body[i])
    {
      ReplaceAllIdentity(ParagraphText(doc.body[i]), m);
    }
  }

  // -----------------------------------------------------------------------
  // Advanced Word mode

  /** `{r["id"]: r for r in results}`: a later result with the same id
      replaces an earlier one. */
  function ById(results: seq<Rendered>): map<Key, Rendered>
    decreases |results|
  {
    if |results| == 0 then map[]
    else ById(results[..|results| - 1])[results[|results| - 1].id := results[|results| - 1]]
  }

  /** The keys are exactly the ids of the results, and each id holds the
      last result that carries it. */
  lemma {:induction false} ByIdSpec(results: seq<Rendered>, i: nat)
    requires i < |results|
    requires forall j :: i < j < |results| ==> results[j].id != results[i].id
    ensures results[i].id in ById(results) && ById(results)[results[i].id] == results[i]
    decreases |results|
  {
    if i < |results| - 1 {
      ByIdSpec(results[..|results| - 1], i);
    }
  }

  lemma {:induction false} ByIdKeys(results: seq<Rendered>, k: Key)
    ensures k in ById(results) <==> exists i :: 0 <= i < |results| && results[i].id == k
    decreases |results|
  {
    if |results| > 0 {
      var n := |results| - 1;
      ByIdKeys(results[..n], k);
      if exists i :: 0 <= i < n && results[..n][i].id == k {
        var i :| 0 <= i < n && results[..n][i].id == k;
        assert results[i].id == k;
      }
    }
  }

  /** Python truthiness of a font size: `None` and zero are falsy. */
  predicate SizeSet(size: Option<int>) {
    size.Some? && size.value != 0
  }

  /** Restoring the saved font attributes on a run: only truthy values are
      written back. */
  function RestoreFont(run: Run, name: Option<string>, size: Option<int>): Run {
    run.(fontName := if Truthy(name) then name else run.fontName,
         fontSize := if SizeSet(size) then size else run.fontSize)
  }

  /** Every run with its text emptied and its formatting kept. */
  function ClearTexts(runs: seq<Run>): (r: seq<Run>)
    ensures |r| == |runs|
  {
    seq(|runs|, i requires 0 <= i < |runs| => runs[i].(text := ""))
  }

  /** The nested `process_paragraph`: non-blank content goes into the first
      run and empties the others (or becomes a new plain run when there are
      none); the first run's saved font attributes are written back; the
      style changes only to a non-empty name the document defines. */
  function ProcessParagraph(p: Paragraph, content: string, styleName: string, catalog: seq<string>): Paragraph {
    var fontName := if |p.runs| > 0 then p.runs[0].fontName else None;
    var fontSize := if |p.runs| > 0 then p.runs[0].fontSize else None;
    var runs :=
      if Strip(content) == "" then p.runs
      else if |p.runs| > 0 then [p.runs[0].(text := content)] + ClearTexts(p.runs[1..])
      else [Run(content, None, None)];
    var restored := if |runs| > 0 then [RestoreFont(runs[0], fontName, fontSize)] + runs[1..] else runs;
    Paragraph(restored, if styleName != "" && styleName in catalog then styleName else p.style)
  }

  lemma {:induction false} ConcatEmpties(xs: seq<string>)
    requires forall i :: 0 <= i < |xs| ==> xs[i] == ""
    ensures Concat(xs) == ""
    decreases |xs|
  {
    if |xs| > 0 {
      ConcatEmpties(xs[1..]);
    }
  }

  /** What `process_paragraph` does to a paragraph: blank content leaves the
      runs alone; otherwise the paragraph's text becomes the content, the
      number of runs is kept (one new plain run if there were none), and
      every existing run keeps its font name and size. The style is the
      requested one exactly when it is non-empty and defined. */
  lemma ProcessParagraphSpec(p: Paragraph, content: string, styleName: string, catalog: seq<string>)
    ensures var r := ProcessParagraph(p, content, styleName, catalog);
      r.style == (if styleName != "" && styleName in catalog then styleName else p.style)
    ensures Strip(content) == "" ==> ProcessParagraph(p, content, styleName, catalog).runs == p.runs
    ensures Strip(content) != "" && |p.runs| == 0 ==>
      ProcessParagraph(p, content, styleName, catalog).runs == [Run(content, None, None)]
    ensures Strip(content) != "" ==> ParagraphText(ProcessParagraph(p, content, styleName, catalog)) == content
    ensures Strip(content) != "" && |p.runs| > 0 ==>
      var r := ProcessParagraph(p, content, styleName, catalog);
      |r.runs| == |p.runs| &&
      forall i :: 0 <= i < |r.runs| ==> r.runs[i].fontName == p.runs[i].fontName && r.runs[i].fontSize == p.runs[i].fontSize
  {
    var r := ProcessParagraph(p, content, styleName, catalog);
    if Strip(content) != "" {
      if |p.runs| > 0 {
        var texts := RunTexts(r.runs);
        assert texts[0] == content;
        ConcatEmpties(texts[1..]);
        assert texts == [content] + texts[1..];
      } else {
        assert r.runs == [Run(content, None, None)];
        assert RunTexts(r.runs) == [content];
        assert [content][1..] == [];
        assert Concat([content]) == content + Concat([]);
      }
    } else {
      if |p.runs| > 0 {
        assert r.runs[0] == p.runs[0];
        assert [r.runs[0]] + p.runs[1..] == p.runs;
      }
    }
  }

  /** The id of paragraph `idx` of a zone: "main-3", "header-0", "footer-1". */
  function ZoneId(zone: string, idx: nat): Key {
    Name(zone + "-" + NatToString(idx))
  }

  lemma ZoneIdInjective(zone: string, a: nat, b: nat)
    requires ZoneId(zone, a) == ZoneId(zone, b)
    ensures a == b
  {
    var sa := zone + "-" + NatToString(a);
    var sb := zone + "-" + NatToString(b);
    assert sa[|zone| + 1..] == NatToString(a);
    assert sb[|zone| + 1..] == NatToString(b);
    NatToStringInjective(a, b);
  }

  /** Ids of zones whose names start differently never coincide. */
  lemma ZoneIdsApart(zone1: string, zone2: string, a: nat, b: nat)
    requires |zone1| > 0 && |zone2| > 0 && zone1[0] != zone2[0]
    ensures ZoneId(zone1, a) != ZoneId(zone2, b)
  {
    assert ZoneId(zone1, a).s[0] == zone1[0];
    assert ZoneId(zone2, b).s[0] == zone2[0];
  }

  /** A result written into a paragraph: its content and style name,
      stripped; a missing style name counts as "". */
  function Apply(p: Paragraph, info: Rendered, catalog: seq<string>): Paragraph {
    ProcessParagraph(p, Strip(info.content), Strip(info.styleName.GetOr("")), catalog)
  }

  /** The loop over one zone's paragraphs, threading the set of ids already
      written: paragraph `idx` receives the result with id `<zone>-<idx>`,
      unless there is none or that id was already written. */
  function ApplyZone(ps: seq<Paragraph>, zone: string, byId: map<Key, Rendered>, catalog: seq<string>, matched: set<Key>): (r: (seq<Paragraph>, set<Key>))
    ensures |r.0| == |ps|
    decreases |ps|
  {
    if |ps| == 0 then ([], matched)
    else
      var prev := ApplyZone(ps[..|ps| - 1], zone, byId, catalog, matched);
      var id := ZoneId(zone, |ps| - 1);
      if id in byId && id !in prev.1 then (prev.0 + [Apply(ps[|ps| - 1], byId[id], catalog)], prev.1 + {id})
      else (prev.0 + [ps[|ps| - 1]], prev.1)
  }

  /** The ids `<zone>-<idx>` for `idx < n` that have a result. */
  function ZoneIds(zone: string, n: nat, byId: map<Key, Rendered>): set<Key> {
    set i | 0 <= i < n && ZoneId(zone, i) in byId :: ZoneId(zone, i)
  }

  lemma ZoneIdsMember(zone: string, n: nat, byId: map<Key, Rendered>, k: nat)
    ensures ZoneId(zone, k) in ZoneIds(zone, n, byId) <==> ZoneId(zone, k) in byId && k < n
  {
    if ZoneId(zone, k) in ZoneIds(zone, n, byId) {
      var i :| 0 <= i < n && ZoneId(zone, i) in byId && ZoneId(zone, i) == ZoneId(zone, k);
      ZoneIdInjective(zone, i, k);
    }
  }

  lemma ZoneIdsOther(zone: string, other: string, n: nat, byId: map<Key, Rendered>, k: nat)
    requires |zone| > 0 && |other| > 0 && zone[0] != other[0]
    ensures ZoneId(other, k) !in ZoneIds(zone, n, byId)
  {
    forall i | 0 <= i < n ensures ZoneId(zone, i) != ZoneId(other, k) {
      ZoneIdsApart(zone, other, i, k);
    }
  }

  lemma ZoneIdsSnoc(zone: string, n: nat, byId: map<Key, Rendered>)
    ensures ZoneIds(zone, n + 1, byId)
      == ZoneIds(zone, n, byId) + (if ZoneId(zone, n) in byId then {ZoneId(zone, n)} else {})
  {
  }

  lemma ZoneIdsMonotone(zone: string, a: nat, b: nat, byId: map<Key, Rendered>)
    requires a <= b
    ensures ZoneIds(zone, a, byId) <= ZoneIds(zone, b, byId)
  {
  }

  /** One zone adds to the written set exactly its own ids that have a
      result. */
  lemma {:induction false} ApplyZoneMatched(ps: seq<Paragraph>, zone: string, byId: map<Key, Rendered>, catalog: seq<string>, matched: set<Key>)
    ensures ApplyZone(ps, zone, byId, catalog, matched).1 == matched + ZoneIds(zone, |ps|, byId)
    decreases |ps|
  {
    if |ps| > 0 {
      var n := |ps| - 1;
      ApplyZoneMatched(ps[..n], zone, byId, catalog, matched);
      ZoneIdsMember(zone, n, byId, n);
      ZoneIdsSnoc(zone, n, byId);
    }
  }

  /** One zone: paragraph `i` receives its result exactly when its id has
      one and was not already written before the zone. */
  lemma {:induction false} ApplyZoneAt(ps: seq<Paragraph>, zone: string, byId: map<Key, Rendered>, catalog: seq<string>, matched: set<Key>, i: nat)
    requires i < |ps|
    ensures ApplyZone(ps, zone, byId, catalog, matched).0[i]
      == (if ZoneId(zone, i) in byId && ZoneId(zone, i) !in matched
          then Apply(ps[i], byId[ZoneId(zone, i)], catalog) else ps[i])
    decreases |ps|
  {
    var n := |ps| - 1;
    if i < n {
      ApplyZoneEarlier(ps, zone, byId, catalog, matched, i);
      ApplyZoneAt(ps[..n], zone, byId, catalog, matched, i);
    } else {
      ApplyZoneLast(ps, zone, byId, catalog, matched);
    }
  }

  /** The last paragraph of a zone is written when its id has a result not
      written before the zone: the zone's own earlier ids differ from it. */
  lemma ApplyZoneLast(ps: seq<Paragraph>, zone: string, byId: map<Key, Rendered>, catalog: seq<string>, matched: set<Key>)
    requires |ps| > 0
    ensures var n := |ps| - 1;
      ApplyZone(ps, zone, byId, catalog, matched).0[n]
      == (if ZoneId(zone, n) in byId && ZoneId(zone, n) !in matched
          then Apply(ps[n], byId[ZoneId(zone, n)], catalog) else ps[n])
  {
    var n := |ps| - 1;
    ApplyZoneMatched(ps[..n], zone, byId, catalog, matched);
    ZoneIdsMember(zone, n, byId, n);
  }

  /** Earlier paragraphs are those of the zone without its last one. */
  lemma ApplyZoneEarlier(ps: seq<Paragraph>, zone: string, byId: map<Key, Rendered>, catalog: seq<string>, matched: set<Key>, i: nat)
    requires i < |ps| - 1
    ensures ApplyZone(ps, zone, byId, catalog, matched).0[i]
      == ApplyZone(ps[..|ps| - 1], zone, byId, catalog, matched).0[i]
    ensures ps[..|ps| - 1][i] == ps[i]
  {
  }

  /** Which paragraphs of a document section form a zone. */
  datatype Zone = Header | Footer

  function Paras(s: DocSection, z: Zone): seq<Paragraph> {
    match z
    case Header => s.header
    case Footer => s.footer
  }

  function ZoneName(z: Zone): string {
    match z
    case Header => "header"
    case Footer => "footer"
  }

  /** The longest zone among the given sections: the header (or footer)
      ids below it have already been visited. */
  function Span(ss: seq<DocSection>, z: Zone): (r: nat)
    ensures forall j :: 0 <= j < |ss| ==> |Paras(ss[j], z)| <= r
    decreases |ss|
  {
    if |ss| == 0 then 0
    else
      var prev := Span(ss[..|ss| - 1], z);
      var len := |Paras(ss[|ss| - 1], z)|;
      assert forall j :: 0 <= j < |ss| - 1 ==> ss[j] == ss[..|ss| - 1][j];
      if prev < len then len else prev
  }

  /** The header and footer loops over the document sections, in order,
      continuing the written set of the body loop. */
  function ApplySections(ss: seq<DocSection>, byId: map<Key, Rendered>, catalog: seq<string>, matched: set<Key>): (r: (seq<DocSection>, set<Key>))
    ensures |r.0| == |ss|
    ensures forall j, z :: 0 <= j < |ss| ==> |Paras(r.0[j], z)| == |Paras(ss[j], z)|
    decreases |ss|
  {
    if |ss| == 0 then ([], matched)
    else
      var prev := ApplySections(ss[..|ss| - 1], byId, catalog, matched);
      var s := ss[|ss| - 1];
      var h := ApplyZone(s.header, "header", byId, catalog, prev.1);
      var f := ApplyZone(s.footer, "footer", byId, catalog, h.1);
      assert forall j :: 0 <= j < |ss| - 1 ==> ss[j] == ss[..|ss| - 1][j];
      (prev.0 + [DocSection(h.0, f.0)], f.1)
  }

  lemma ZoneIdsUnion(zone: string, a: nat, b: nat, byId: map<Key, Rendered>)
    ensures ZoneIds(zone, a, byId) + ZoneIds(zone, b, byId) == ZoneIds(zone, if a < b then b else a, byId)
  {
    if a < b {
      ZoneIdsMonotone(zone, a, b, byId);
    } else {
      ZoneIdsMonotone(zone, b, a, byId);
    }
  }

  lemma SpanSnoc(ss: seq<DocSection>, z: Zone)
    requires |ss| > 0
    ensures Span(ss, z) == if Span(ss[..|ss| - 1], z) < |Paras(ss[|ss| - 1], z)|
      then |Paras(ss[|ss| - 1], z)| else Span(ss[..|ss| - 1], z)
  {
  }

  /** The last section adds its header ids, then its footer ids. */
  lemma ApplySectionsLast(ss: seq<DocSection>, byId: map<Key, Rendered>, catalog: seq<string>, matched: set<Key>)
    requires |ss| > 0
    ensures ApplySections(ss, byId, catalog, matched).1
      == ApplySections(ss[..|ss| - 1], byId, catalog, matched).1
         + ZoneIds("header", |ss[|ss| - 1].header|, byId) + ZoneIds("footer", |ss[|ss| - 1].footer|, byId)
  {
    var s := ss[|ss| - 1];
    var prev := ApplySections(ss[..|ss| - 1], byId, catalog, matched);
    var h := ApplyZone(s.header, "header", byId, catalog, prev.1);
    ApplyZoneMatched(s.header, "header", byId, catalog, prev.1);
    ApplyZoneMatched(s.footer, "footer", byId, catalog, h.1);
  }

  lemma UnionRegroup(m: set<Key>, h0: set<Key>, f0: set<Key>, hs: set<Key>, fs: set<Key>)
    ensures m + h0 + f0 + hs + fs == m + (h0 + hs) + (f0 + fs)
  {
  }

  /** After the sections, the written set holds every header and footer id
      that has a result and that some section is long enough to have. */
  lemma {:induction false} ApplySectionsMatched(ss: seq<DocSection>, byId: map<Key, Rendered>, catalog: seq<string>, matched: set<Key>)
    ensures ApplySections(ss, byId, catalog, matched).1
      == matched + ZoneIds("header", Span(ss, Header), byId) + ZoneIds("footer", Span(ss, Footer), byId)
    decreases |ss|
  {
    if |ss| > 0 {
      var init := ss[..|ss| - 1];
      var s := ss[|ss| - 1];
      ApplySectionsMatched(init, byId, catalog, matched);
      ApplySectionsLast(ss, byId, catalog, matched);
      var h0 := ZoneIds("header", Span(init, Header), byId);
      var f0 := ZoneIds("footer", Span(init, Footer), byId);
      var hs := ZoneIds("header", |s.header|, byId);
      var fs := ZoneIds("footer", |s.footer|, byId);
      UnionRegroup(matched, h0, f0, hs, fs);
      SpanSnoc(ss, Header);
      SpanSnoc(ss, Footer);
      ZoneIdsUnion("header", Span(init, Header), |s.header|, byId);
      ZoneIdsUnion("footer", Span(init, Footer), |s.footer|, byId);
    }
  }

  /** A header or footer paragraph's id has a result, was not written
      before the sections, and no earlier section has that many paragraphs
      in the same zone. */
  predicate ZoneFresh(ss: seq<DocSection>, byId: map<Key, Rendered>, matched: set<Key>, j: nat, z: Zone, k: nat)
    requires j <= |ss|
  {
    ZoneId(ZoneName(z), k) in byId && ZoneId(ZoneName(z), k) !in matched && Span(ss[..j], z) <= k
  }

  /** Paragraph `k` of zone `z` of section `j` receives its result exactly
      when it is fresh in the sense above. */
  lemma {:induction false} ApplySectionsAt(ss: seq<DocSection>, byId: map<Key, Rendered>, catalog: seq<string>, matched: set<Key>, j: nat, z: Zone, k: nat)
    requires j < |ss| && k < |Paras(ss[j], z)|
    ensures Paras(ApplySections(ss, byId, catalog, matched).0[j], z)[k]
      == (if ZoneFresh(ss, byId, matched, j, z, k)
          then Apply(Paras(ss[j], z)[k], byId[ZoneId(ZoneName(z), k)], catalog) else Paras(ss[j], z)[k])
    decreases |ss|
  {
    var n := |ss| - 1;
    var init := ss[..n];
    var s := ss[n];
    var prev := ApplySections(init, byId, catalog, matched);
    var h := ApplyZone(s.header, "header", byId, catalog, prev.1);
    if j < n {
      assert ss[..j] == init[..j];
      assert ss[j] == init[j];
      ApplySectionsAt(init, byId, catalog, matched, j, z, k);
    } else {
      assert ss[..j] == init;
      ApplySectionsMatched(init, byId, catalog, matched);
      ZoneIdsMember(ZoneName(z), Span(init, z), byId, k);
      if z == Header {
        ZoneIdsOther("footer", "header", Span(init, Footer), byId, k);
        ApplyZoneAt(s.header, "header", byId, catalog, prev.1, k);
      } else {
        ZoneIdsOther("header", "footer", Span(init, Header), byId, k);
        ZoneIdsOther("header", "footer", |s.header|, byId, k);
        ApplyZoneMatched(s.header, "header", byId, catalog, prev.1);
        ApplyZoneAt(s.footer, "footer", byId, catalog, h.1, k);
      }
    }
  }

  /** `_generate_docx_advanced_mode`: a ValueError when the numbers of
      sections and results differ; otherwise the body paragraphs, then each
      section's header and footer paragraphs, receive the results keyed by
      their ids. The sections themselves are only counted. */
  function GenerateAdvanced(doc: Document, sections: seq<Section>, results: seq<Rendered>): (r: Result<Document>)
    ensures r.Ok? ==> r.value.styles == doc.styles && |r.value.body| == |doc.body| && |r.value.sections| == |doc.sections|
    ensures r.Ok? ==> forall j, z :: 0 <= j < |doc.sections| ==> |Paras(r.value.sections[j], z)| == |Paras(doc.sections[j], z)|
  {
    if |sections| != |results| then Fail(ValueError("Sections and results lengths do not match."))
    else
      var byId := ById(results);
      var main := ApplyZone(doc.body, "main", byId, doc.styles, {});
      var rest := ApplySections(doc.sections, byId, doc.styles, main.1);
      Ok(Document(main.0, rest.0, doc.styles))
  }

  /** The advanced mode fails exactly on a count mismatch. */
  lemma GenerateAdvancedFails(doc: Document, sections: seq<Section>, results: seq<Rendered>)
    ensures GenerateAdvanced(doc, sections, results).Fail? <==> |sections| != |results|
    ensures |sections| != |results| ==>
      GenerateAdvanced(doc, sections, results) == Fail(ValueError("Sections and results lengths do not match."))
  {
  }

  /** A body paragraph receives the result carrying its id, if any, and
      is untouched otherwise. */
  lemma GenerateAdvancedBody(doc: Document, sections: seq<Section>, results: seq<Rendered>, i: nat)
    requires |sections| == |results| && i < |doc.body|
    ensures GenerateAdvanced(doc, sections, results).value.body[i]
      == (if ZoneId("main", i) in ById(results)
          then Apply(doc.body[i], ById(results)[ZoneId("main", i)], doc.styles) else doc.body[i])
  {
    ApplyZoneAt(doc.body, "main", ById(results), doc.styles, {}, i);
  }

  /** A header or footer paragraph receives the result carrying its id
      only in the first section long enough to have it; paragraphs without
      a result are untouched. */
  lemma GenerateAdvancedZone(doc: Document, sections: seq<Section>, results: seq<Rendered>, j: nat, z: Zone, k: nat)
    requires |sections| == |results| && j < |doc.sections| && k < |Paras(doc.sections[j], z)|
    ensures Paras(GenerateAdvanced(doc, sections, results).value.sections[j], z)[k]
      == (if ZoneId(ZoneName(z), k) in ById(results) && Span(doc.sections[..j], z) <= k
          then Apply(Paras(doc.sections[j], z)[k], ById(results)[ZoneId(ZoneName(z), k)], doc.styles)
          else Paras(doc.sections[j], z)[k])
  {
    var byId := ById(results);
    var main := ApplyZone(doc.body, "main", byId, doc.styles, {});
    ApplyZoneMatched(doc.body, "main", byId, doc.styles, {});
    ZoneIdsOther("main", ZoneName(z), |doc.body|, byId, k);
    ApplySectionsAt(doc.sections, byId, doc.styles, main.1, j, z, k);
  }

  /** Hence a later section's header or footer paragraph at a position the
      first section already has is never written. */
  lemma AdvancedOnlyFirstSection(doc: Document, sections: seq<Section>, results: seq<Rendered>, j: nat, z: Zone, k: nat)
    requires |sections| == |results|
    requires 0 < j < |doc.sections| && k < |Paras(doc.sections[0], z)| && k < |Paras(doc.sections[j], z)|
    ensures Paras(GenerateAdvanced(doc, sections, results).value.sections[j], z)[k] == Paras(doc.sections[j], z)[k]
  {
    GenerateAdvancedZone(doc, sections, results, j, z, k);
    assert doc.sections[..j][0] == doc.sections[0];
  }
}
