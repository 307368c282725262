/** The document parser: plain-text files become at most one section; Word
    documents are cut at heading paragraphs into groups, and under-sized
    groups are then greedily merged with the groups that follow them. */
module Parser {
  import opened Common
  import opened Text
  import Paths
  import opened Docx

  /** A raw group: the heading's text followed by the texts of the body
      paragraphs under it. */
  type Group = seq<string>

  predicate IsHeading(p: Paragraph, headingStyles: seq<string>) {
    p.style in headingStyles
  }

  function Texts(ps: seq<Paragraph>): (r: seq<string>)
    ensures |r| == |ps|
    ensures forall i :: 0 <= i < |ps| ==> r[i] == ParagraphText(ps[i])
  {
    seq(|ps|, i requires 0 <= i < |ps| => ParagraphText(ps[i]))
  }

  // -----------------------------------------------------------------------
  // Grouping at headings

  /** The grouping loop of the source, with `cur` as the group being built:
      a heading closes the current group (if any) and opens a new one; a
      body paragraph joins the current group, or is dropped when no heading
      has been seen yet. Empty paragraphs are not special. */
  function GroupFold(ps: seq<Paragraph>, hs: seq<string>, cur: Group): seq<Group>
    decreases |ps|
  {
    if |ps| == 0 then (if cur != [] then [cur] else [])
    else if IsHeading(ps[0], hs) then
      (if cur != [] then [cur] else []) + GroupFold(ps[1..], hs, [ParagraphText(ps[0])])
    else
      GroupFold(ps[1..], hs, if cur != [] then cur + [ParagraphText(ps[0])] else cur)
  }

  function RawGroups(ps: seq<Paragraph>, hs: seq<string>): seq<Group> {
    GroupFold(ps, hs, [])
  }

  /** The texts of the body paragraphs that precede the first heading. */
  function LeadingBody(ps: seq<Paragraph>, hs: seq<string>): (r: seq<string>)
    ensures |r| <= |ps|
    ensures |r| < |ps| ==> IsHeading(ps[|r|], hs)
    ensures forall i :: 0 <= i < |r| ==> !IsHeading(ps[i], hs)
  {
    if |ps| == 0 || IsHeading(ps[0], hs) then []
    else [ParagraphText(ps[0])] + LeadingBody(ps[1..], hs)
  }

  /** The leading body is the texts of the paragraphs it spans. */
  lemma {:induction false} LeadingBodyTexts(ps: seq<Paragraph>, hs: seq<string>)
    ensures LeadingBody(ps, hs) == Texts(ps[..|LeadingBody(ps, hs)|])
    decreases |ps|
  {
    if |ps| > 0 && !IsHeading(ps[0], hs) {
      var rest := LeadingBody(ps[1..], hs);
      LeadingBodyTexts(ps[1..], hs);
      assert ps[..|rest| + 1] == [ps[0]] + ps[1..][..|rest|];
    }
  }

  /** Reference grouping: one group per heading paragraph, holding the
      heading's text and the texts of the body paragraphs up to the next
      heading. */
  function HeadingGroups(ps: seq<Paragraph>, hs: seq<string>): seq<Group> {
    if |ps| == 0 then []
    else if IsHeading(ps[0], hs) then
      [[ParagraphText(ps[0])] + LeadingBody(ps[1..], hs)] + HeadingGroups(ps[1..], hs)
    else HeadingGroups(ps[1..], hs)
  }

  /** The source's loop computes the reference grouping, with an open
      group `cur` absorbing the body paragraphs that come first. */
  lemma {:induction false} GroupFoldIsHeadingGroups(ps: seq<Paragraph>, hs: seq<string>, cur: Group)
    ensures GroupFold(ps, hs, cur) ==
            (if cur != [] then [cur + LeadingBody(ps, hs)] else []) + HeadingGroups(ps, hs)
    decreases |ps|
  {
    if |ps| == 0 {
      assert cur + LeadingBody(ps, hs) == cur;
    } else if IsHeading(ps[0], hs) {
      GroupFoldIsHeadingGroups(ps[1..], hs, [ParagraphText(ps[0])]);
      assert LeadingBody(ps, hs) == [];
      assert cur + LeadingBody(ps, hs) == cur;
    } else {
      var next := if cur != [] then cur + [ParagraphText(ps[0])] else cur;
      GroupFoldIsHeadingGroups(ps[1..], hs, next);
      if cur != [] {
        assert cur + LeadingBody(ps, hs) == next + LeadingBody(ps[1..], hs);
      }
    }
  }

  function CountHeadings(ps: seq<Paragraph>, hs: seq<string>): nat {
    if |ps| == 0 then 0 else (if IsHeading(ps[0], hs) then 1 else 0) + CountHeadings(ps[1..], hs)
  }

  /** Texts of the heading paragraphs, in document order. */
  function HeadingTexts(ps: seq<Paragraph>, hs: seq<string>): (r: seq<string>)
    ensures |r| == CountHeadings(ps, hs)
  {
    if |ps| == 0 then []
    else (if IsHeading(ps[0], hs) then [ParagraphText(ps[0])] else []) + HeadingTexts(ps[1..], hs)
  }

  /** Everything from the first heading on: the paragraphs the grouping keeps. */
  function FromFirstHeading(ps: seq<Paragraph>, hs: seq<string>): seq<Paragraph> {
    ps[|LeadingBody(ps, hs)|..]
  }

  function Flatten(gs: seq<Group>): seq<string> {
    if |gs| == 0 then [] else gs[0] + Flatten(gs[1..])
  }

  lemma {:induction false} FlattenAppend(a: seq<Group>, b: seq<Group>)
    ensures Flatten(a + b) == Flatten(a) + Flatten(b)
    decreases |a|
  {
    if |a| == 0 {
      assert a + b == b;
    } else {
      assert (a + b)[1..] == a[1..] + b;
      FlattenAppend(a[1..], b);
    }
  }

  lemma {:induction false} TextsAppend(a: seq<Paragraph>, b: seq<Paragraph>)
    ensures Texts(a + b) == Texts(a) + Texts(b)
  {
    var l, r := Texts(a + b), Texts(a) + Texts(b);
    assert |l| == |r|;
    forall i | 0 <= i < |l| ensures l[i] == r[i] {
      if i >= |a| {
        assert (a + b)[i] == b[i - |a|];
      }
    }
  }

  /** One group per heading. */
  lemma {:induction false} HeadingGroupsCount(ps: seq<Paragraph>, hs: seq<string>)
    ensures |HeadingGroups(ps, hs)| == CountHeadings(ps, hs)
    decreases |ps|
  {
    if |ps| > 0 {
      HeadingGroupsCount(ps[1..], hs);
    }
  }

  /** The k-th group starts with the k-th heading's text. */
  lemma {:induction false} HeadingGroupsHeads(ps: seq<Paragraph>, hs: seq<string>)
    ensures |HeadingGroups(ps, hs)| == |HeadingTexts(ps, hs)|
    ensures forall k :: 0 <= k < |HeadingGroups(ps, hs)| ==>
              |HeadingGroups(ps, hs)[k]| >= 1 &&
              HeadingGroups(ps, hs)[k][0] == HeadingTexts(ps, hs)[k]
    decreases |ps|
  {
    if |ps| > 0 {
      var rest := ps[1..];
      HeadingGroupsHeads(rest, hs);
      HeadingGroupsCount(ps, hs);
      if IsHeading(ps[0], hs) {
        var g := [ParagraphText(ps[0])] + LeadingBody(rest, hs);
        var gs, ts := HeadingGroups(ps, hs), HeadingTexts(ps, hs);
        assert gs == [g] + HeadingGroups(rest, hs);
        assert ts == [ParagraphText(ps[0])] + HeadingTexts(rest, hs);
        forall k | 0 <= k < |gs| ensures |gs[k]| >= 1 && gs[k][0] == ts[k] {
          if k > 0 {
            assert gs[k] == HeadingGroups(rest, hs)[k - 1];
            assert ts[k] == HeadingTexts(rest, hs)[k - 1];
          }
        }
      } else {
        assert HeadingTexts(ps, hs) == [] + HeadingTexts(rest, hs);
      }
    }
  }

  lemma FlattenCons(g: Group, gs: seq<Group>)
    ensures Flatten([g] + gs) == g + Flatten(gs)
  {
    assert ([g] + gs)[1..] == gs;
  }

  /** Texts of a non-empty list: the first paragraph's text, then the rest. */
  lemma TextsCons(ps: seq<Paragraph>)
    requires |ps| > 0
    ensures Texts(ps) == [ParagraphText(ps[0])] + Texts(ps[1..])
  {
    assert ps == [ps[0]] + ps[1..];
    TextsAppend([ps[0]], ps[1..]);
  }

  /** The groups hold the texts from the first heading on, in order. */
  lemma {:induction false} HeadingGroupsFlatten(ps: seq<Paragraph>, hs: seq<string>)
    ensures Flatten(HeadingGroups(ps, hs)) == Texts(FromFirstHeading(ps, hs))
    decreases |ps|
  {
    if |ps| > 0 {
      var rest := ps[1..];
      HeadingGroupsFlatten(rest, hs);
      if IsHeading(ps[0], hs) {
        HeadingCaseFlatten(ps, hs);
      } else {
        var n := |LeadingBody(rest, hs)|;
        assert ps[1 + n..] == rest[n..];
      }
    }
  }

  /** The step of `HeadingGroupsFlatten` at a heading paragraph. */
  lemma HeadingCaseFlatten(ps: seq<Paragraph>, hs: seq<string>)
    requires |ps| > 0 && IsHeading(ps[0], hs)
    requires Flatten(HeadingGroups(ps[1..], hs)) == Texts(FromFirstHeading(ps[1..], hs))
    ensures Flatten(HeadingGroups(ps, hs)) == Texts(FromFirstHeading(ps, hs))
  {
    var rest := ps[1..];
    HeadingFlattenStep(ps, hs);
    LeadingBodyThenRest(rest, hs);
    HeadingTextsStep(ps, hs);
    ConsChain(ParagraphText(ps[0]), LeadingBody(rest, hs), Texts(FromFirstHeading(rest, hs)), Texts(rest),
              Flatten(HeadingGroups(ps, hs)), Flatten(HeadingGroups(rest, hs)), Texts(FromFirstHeading(ps, hs)));
  }

  lemma ConsChain(h: string, lb: seq<string>, tail: seq<string>, whole: seq<string>,
                  x: seq<string>, y: seq<string>, z: seq<string>)
    requires x == ([h] + lb) + y && y == tail && lb + tail == whole && z == [h] + whole
    ensures x == z
  {
  }

  lemma HeadingFlattenStep(ps: seq<Paragraph>, hs: seq<string>)
    requires |ps| > 0 && IsHeading(ps[0], hs)
    ensures Flatten(HeadingGroups(ps, hs)) ==
            ([ParagraphText(ps[0])] + LeadingBody(ps[1..], hs)) + Flatten(HeadingGroups(ps[1..], hs))
  {
    var g := [ParagraphText(ps[0])] + LeadingBody(ps[1..], hs);
    assert HeadingGroups(ps, hs) == [g] + HeadingGroups(ps[1..], hs);
    FlattenCons(g, HeadingGroups(ps[1..], hs));
  }

  lemma HeadingTextsStep(ps: seq<Paragraph>, hs: seq<string>)
    requires |ps| > 0 && IsHeading(ps[0], hs)
    ensures Texts(FromFirstHeading(ps, hs)) == [ParagraphText(ps[0])] + Texts(ps[1..])
  {
    assert LeadingBody(ps, hs) == [];
    assert FromFirstHeading(ps, hs) == ps;
    TextsCons(ps);
  }

  /** Groups of the reference grouping: one per heading, each starting with
      its heading's text, and together holding exactly the texts from the
      first heading on, in order (empty paragraphs included). */
  lemma HeadingGroupsShape(ps: seq<Paragraph>, hs: seq<string>)
    ensures |HeadingGroups(ps, hs)| == CountHeadings(ps, hs)
    ensures forall k :: 0 <= k < |HeadingGroups(ps, hs)| ==>
              |HeadingGroups(ps, hs)[k]| >= 1 &&
              HeadingGroups(ps, hs)[k][0] == HeadingTexts(ps, hs)[k]
    ensures Flatten(HeadingGroups(ps, hs)) == Texts(FromFirstHeading(ps, hs))
  {
    HeadingGroupsCount(ps, hs);
    HeadingGroupsHeads(ps, hs);
    HeadingGroupsFlatten(ps, hs);
  }

  /** The texts of a paragraph list are its leading body followed by the
      texts of everything from the first heading on. */
  lemma LeadingBodyThenRest(ps: seq<Paragraph>, hs: seq<string>)
    ensures Texts(ps) == LeadingBody(ps, hs) + Texts(FromFirstHeading(ps, hs))
    ensures LeadingBody(ps, hs) == [] ==> HeadingGroups(ps, hs) == HeadingGroups(FromFirstHeading(ps, hs), hs)
  {
    var n := |LeadingBody(ps, hs)|;
    LeadingBodyTexts(ps, hs);
    assert ps == ps[..n] + ps[n..];
    TextsAppend(ps[..n], ps[n..]);
  }

  /** Grouping at headings (lines 37-48 of the parser): one group per
      heading paragraph, in order, each starting with that heading's text;
      the groups hold exactly the paragraph texts from the first heading on
      (so body paragraphs before it are dropped and empty paragraphs are
      kept); a document without headings gives no group. */
  lemma {:induction false} RawGroupsShape(ps: seq<Paragraph>, hs: seq<string>)
    ensures |RawGroups(ps, hs)| == CountHeadings(ps, hs)
    ensures forall k :: 0 <= k < |RawGroups(ps, hs)| ==>
              |RawGroups(ps, hs)[k]| >= 1 && RawGroups(ps, hs)[k][0] == HeadingTexts(ps, hs)[k]
    ensures Flatten(RawGroups(ps, hs)) == Texts(FromFirstHeading(ps, hs))
    ensures CountHeadings(ps, hs) == 0 ==> RawGroups(ps, hs) == []
  {
    GroupFoldIsHeadingGroups(ps, hs, []);
    assert RawGroups(ps, hs) == HeadingGroups(ps, hs);
    HeadingGroupsShape(ps, hs);
  }

  /** Body paragraphs in front of the first heading never reach a group:
      prefixing a heading-free run of paragraphs changes nothing. */
  lemma {:induction false} LeadingBodyDropped(body: seq<Paragraph>, ps: seq<Paragraph>, hs: seq<string>)
    requires forall i :: 0 <= i < |body| ==> !IsHeading(body[i], hs)
    ensures RawGroups(body + ps, hs) == RawGroups(ps, hs)
    decreases |body|
  {
    GroupFoldIsHeadingGroups(body + ps, hs, []);
    GroupFoldIsHeadingGroups(ps, hs, []);
    if |body| > 0 {
      assert (body + ps)[1..] == body[1..] + ps;
      LeadingBodyDropped(body[1..], ps, hs);
      GroupFoldIsHeadingGroups(body[1..] + ps, hs, []);
    } else {
      assert body + ps == ps;
    }
  }

  // -----------------------------------------------------------------------
  // Greedy merging of under-sized groups

  /** The section title of a group: its heading text. */
  function Title(g: Group): string {
    if |g| > 0 then g[0] else "Untitled"
  }

  /** A group's own content: its body lines joined by newlines, stripped. */
  function OwnContent(g: Group): string {
    Strip(Join("\n", if |g| > 0 then g[1..] else []))
  }

  /** An absorbed group is appended whole, heading included, as its lines
      joined by newlines. */
  function Absorbed(g: Group): string {
    Join("\n", g)
  }

  function AbsorbedAll(gs: seq<Group>): string {
    if |gs| == 0 then [] else Absorbed(gs[0]) + AbsorbedAll(gs[1..])
  }

  lemma {:induction false} AbsorbedAllSnoc(gs: seq<Group>, g: Group)
    ensures AbsorbedAll(gs + [g]) == AbsorbedAll(gs) + Absorbed(g)
    decreases |gs|
  {
    if |gs| == 0 {
      assert gs + [g] == [g];
    } else {
      assert (gs + [g])[1..] == gs[1..] + [g];
      AbsorbedAllSnoc(gs[1..], g);
    }
  }

  /** The loop condition of the merge, `word_count < min_word_threshold`,
      as a test on the running content. */
  function UnderThreshold(t: int): string -> bool {
    c => WordCount(c) < t
  }

  /** The inner loop of the merge: while the running content is under the
      threshold and groups remain, append the next group (without any
      separator). Returns the final content and how many groups it took. */
  function Absorb(content: string, rest: seq<Group>, under: string -> bool): (r: (string, nat))
    ensures r.1 <= |rest|
    decreases |rest|
  {
    if under(content) && |rest| > 0 then
      var r := Absorb(content + Absorbed(rest[0]), rest[1..], under);
      (r.0, r.1 + 1)
    else
      (content, 0)
  }

  /** What the inner loop builds: the starting content with the taken
      groups appended; it stops under the threshold only when the groups ran
      out; and it stops as soon as the threshold is met, so after every
      shorter prefix of the taken groups the content was still under it. */
  lemma {:induction false} AbsorbFacts(content: string, rest: seq<Group>, under: string -> bool)
    ensures Absorb(content, rest, under).0 == content + AbsorbedAll(rest[..Absorb(content, rest, under).1])
    ensures !under(Absorb(content, rest, under).0) || Absorb(content, rest, under).1 == |rest|
    ensures forall j :: 0 <= j < Absorb(content, rest, under).1 ==>
              under(content + AbsorbedAll(rest[..j]))
    decreases |rest|
  {
    var r := Absorb(content, rest, under);
    if under(content) && |rest| > 0 {
      var next := content + Absorbed(rest[0]);
      var r' := Absorb(next, rest[1..], under);
      AbsorbFacts(next, rest[1..], under);
      assert r == (r'.0, r'.1 + 1);
      assert rest[..r.1] == [rest[0]] + rest[1..][..r'.1];
      assert content + AbsorbedAll(rest[..r.1]) == next + AbsorbedAll(rest[1..][..r'.1]);
      forall j | 0 <= j < r.1
        ensures under(content + AbsorbedAll(rest[..j]))
      {
        if j > 0 {
          assert rest[..j] == [rest[0]] + rest[1..][..j - 1];
          assert content + AbsorbedAll(rest[..j]) == next + AbsorbedAll(rest[1..][..j - 1]);
        } else {
          assert content + AbsorbedAll(rest[..0]) == content;
        }
      }
    } else {
      assert content + AbsorbedAll(rest[..0]) == content;
    }
  }

  /** The merge loop of the source: each output section starts at a group,
      keeps its heading as title, and absorbs the groups `Absorb` takes. */
  function MergeWith(groups: seq<Group>, under: string -> bool): seq<Section>
    decreases |groups|
  {
    if |groups| == 0 then []
    else
      var r := Absorb(OwnContent(groups[0]), groups[1..], under);
      [Section(None, Title(groups[0]), r.0)] + MergeWith(groups[1 + r.1..], under)
  }

  /** The merge of the parser with threshold `t`. */
  function Merge(groups: seq<Group>, t: int): seq<Section> {
    MergeWith(groups, UnderThreshold(t))
  }

  /** The runs of consecutive groups that the merge combines, left to right. */
  function MergeRuns(groups: seq<Group>, under: string -> bool): seq<seq<Group>>
    decreases |groups|
  {
    if |groups| == 0 then []
    else
      var r := Absorb(OwnContent(groups[0]), groups[1..], under);
      [groups[..1 + r.1]] + MergeRuns(groups[1 + r.1..], under)
  }

  /** The section a run of groups becomes: the first group's title, its own
      content, then every later group appended whole. */
  function RunSection(run: seq<Group>): Section
    requires |run| > 0
  {
    Section(None, Title(run[0]), OwnContent(run[0]) + AbsorbedAll(run[1..]))
  }

  function FlattenRuns(runs: seq<seq<Group>>): seq<Group> {
    if |runs| == 0 then [] else runs[0] + FlattenRuns(runs[1..])
  }

  lemma {:induction false} MergeWithIsPartition(groups: seq<Group>, under: string -> bool)
    ensures FlattenRuns(MergeRuns(groups, under)) == groups
    ensures forall i :: 0 <= i < |MergeRuns(groups, under)| ==> |MergeRuns(groups, under)[i]| > 0
    ensures |MergeWith(groups, under)| == |MergeRuns(groups, under)|
    ensures forall i :: 0 <= i < |MergeWith(groups, under)| ==>
              MergeWith(groups, under)[i] == RunSection(MergeRuns(groups, under)[i])
    decreases |groups|
  {
    if |groups| > 0 {
      var r := Absorb(OwnContent(groups[0]), groups[1..], under);
      AbsorbFacts(OwnContent(groups[0]), groups[1..], under);
      var rest := groups[1 + r.1..];
      MergeWithIsPartition(rest, under);
      var run := groups[..1 + r.1];
      assert run[1..] == groups[1..][..r.1];
      assert groups == run + rest;
      var ms := MergeWith(groups, under);
      var rs := MergeRuns(groups, under);
      assert ms == [RunSection(run)] + MergeWith(rest, under);
      assert rs == [run] + MergeRuns(rest, under);
      forall i | 0 <= i < |ms| ensures ms[i] == RunSection(rs[i]) {
        if i > 0 {
          assert ms[i] == MergeWith(rest, under)[i - 1];
          assert rs[i] == MergeRuns(rest, under)[i - 1];
        }
      }
    }
  }

  /** The merge partitions the groups into non-empty contiguous runs, each
      group consumed exactly once and in order, and the i-th section is the
      section of the i-th run: titled with the heading of the run's first
      group, holding that group's own content followed by every absorbed
      group, heading included, with no separator in between. */
  lemma MergeIsPartition(groups: seq<Group>, t: int)
    ensures FlattenRuns(MergeRuns(groups, UnderThreshold(t))) == groups
    ensures forall i :: 0 <= i < |MergeRuns(groups, UnderThreshold(t))| ==>
              |MergeRuns(groups, UnderThreshold(t))[i]| > 0
    ensures |Merge(groups, t)| == |MergeRuns(groups, UnderThreshold(t))|
    ensures forall i :: 0 <= i < |Merge(groups, t)| ==>
              Merge(groups, t)[i] == RunSection(MergeRuns(groups, UnderThreshold(t))[i])
  {
    MergeWithIsPartition(groups, UnderThreshold(t));
  }

  lemma {:induction false} FlattenRunsLength(runs: seq<seq<Group>>)
    requires forall i :: 0 <= i < |runs| ==> |runs[i]| > 0
    ensures |runs| <= |FlattenRuns(runs)|
    decreases |runs|
  {
    if |runs| > 0 {
      FlattenRunsLength(runs[1..]);
    }
  }

  /** Merging never produces more sections than there were groups. */
  lemma MergeCount(groups: seq<Group>, t: int)
    ensures |Merge(groups, t)| <= |groups|
  {
    MergeWithIsPartition(groups, UnderThreshold(t));
    FlattenRunsLength(MergeRuns(groups, UnderThreshold(t)));
  }

  lemma {:induction false} MergeWithStops(groups: seq<Group>, under: string -> bool)
    ensures forall i :: 0 <= i < |MergeWith(groups, under)| - 1 ==> !under(MergeWith(groups, under)[i].content)
    decreases |groups|
  {
    if |groups| > 0 {
      var r := Absorb(OwnContent(groups[0]), groups[1..], under);
      AbsorbFacts(OwnContent(groups[0]), groups[1..], under);
      var rest := groups[1 + r.1..];
      MergeWithStops(rest, under);
      var ms := MergeWith(groups, under);
      assert ms == [Section(None, Title(groups[0]), r.0)] + MergeWith(rest, under);
      if r.1 == |groups[1..]| {
        assert rest == [];
      }
      forall i | 0 <= i < |ms| - 1 ensures !under(ms[i].content) {
        if i > 0 {
          assert ms[i] == MergeWith(rest, under)[i - 1];
        }
      }
    }
  }

  /** Every merged section but the last has reached the word threshold. */
  lemma MergeThreshold(groups: seq<Group>, t: int)
    ensures forall i :: 0 <= i < |Merge(groups, t)| - 1 ==> WordCount(Merge(groups, t)[i].content) >= t
  {
    MergeWithStops(groups, UnderThreshold(t));
  }

  /** Within each merged run, every group was absorbed while the content
      built so far was still under the threshold: no run is longer than
      needed. */
  lemma {:induction false} MergeWithGreedy(groups: seq<Group>, under: string -> bool)
    ensures forall i, j :: 0 <= i < |MergeRuns(groups, under)| && 1 <= j < |MergeRuns(groups, under)[i]| ==>
              under(OwnContent(MergeRuns(groups, under)[i][0]) + AbsorbedAll(MergeRuns(groups, under)[i][1..j]))
    decreases |groups|
  {
    if |groups| > 0 {
      var r := Absorb(OwnContent(groups[0]), groups[1..], under);
      AbsorbFacts(OwnContent(groups[0]), groups[1..], under);
      var rest := groups[1 + r.1..];
      MergeWithGreedy(rest, under);
      var rs := MergeRuns(groups, under);
      var run := groups[..1 + r.1];
      assert rs == [run] + MergeRuns(rest, under);
      forall i, j | 0 <= i < |rs| && 1 <= j < |rs[i]|
        ensures under(OwnContent(rs[i][0]) + AbsorbedAll(rs[i][1..j]))
      {
        if i > 0 {
          assert rs[i] == MergeRuns(rest, under)[i - 1];
        } else {
          assert run[1..j] == groups[1..][..j - 1];
        }
      }
    }
  }

  /** With a threshold of zero or less nothing is absorbed: one section per
      group, holding the group's own content under its heading. */
  lemma {:induction false} MergeNoThreshold(groups: seq<Group>, t: int)
    requires t <= 0
    ensures |Merge(groups, t)| == |groups|
    ensures forall i :: 0 <= i < |groups| ==>
              Merge(groups, t)[i] == Section(None, Title(groups[i]), OwnContent(groups[i]))
    decreases |groups|
  {
    if |groups| > 0 {
      MergeNoThreshold(groups[1..], t);
      var under := UnderThreshold(t);
      assert !under(OwnContent(groups[0]));
      var ms := Merge(groups, t);
      assert ms == [Section(None, Title(groups[0]), OwnContent(groups[0]))] + Merge(groups[1..], t);
      forall i | 0 <= i < |groups|
        ensures ms[i] == Section(None, Title(groups[i]), OwnContent(groups[i]))
      {
        if i > 0 {
          assert ms[i] == Merge(groups[1..], t)[i - 1];
          assert groups[1..][i - 1] == groups[i];
        }
      }
    }
  }

  // -----------------------------------------------------------------------
  // Entry points

  /** Word documents: group at headings, then merge. */
  function ParseDocx(ps: seq<Paragraph>, hs: seq<string>, t: int): seq<Section> {
    Merge(RawGroups(ps, hs), t)
  }

  /** Plain text: nothing for a blank file, else one section "Document"
      holding the stripped text. */
  function ParseText(text: string): (r: seq<Section>)
    ensures AllSpace(text) <==> r == []
    ensures r != [] ==> r == [Section(None, "Document", Strip(text))] && Strip(text) != ""
  {
    StripFacts(text);
    var s := Strip(text);
    if s == "" then [] else [Section(None, "Document", s)]
  }

  datatype Reader = DocxReader | TextReader

  /** Only a lower-cased extension of exactly ".docx" selects the Word reader. */
  function ReaderFor(path: string): Reader {
    if Lower(Paths.Ext(path)) == ".docx" then DocxReader else TextReader
  }

  /** A file as each reader would see it: its text, and its paragraphs. */
  datatype Source = Source(path: string, text: string, paragraphs: seq<Paragraph>)

  function ParseDocument(src: Source, hs: seq<string>, t: int): seq<Section> {
    match ReaderFor(src.path)
    case DocxReader => ParseDocx(src.paragraphs, hs, t)
    case TextReader => ParseText(src.text)
  }

  /** A path ending in an extension is read by the reader that extension
      selects. */
  lemma ReaderForAppended(stem: string, e: string)
    requires |stem| > 0 && stem[|stem| - 1] != '/' && stem[|stem| - 1] != '.'
    requires |e| > 0 && e[0] == '.' && '.' !in e[1..] && '/' !in e
    ensures ReaderFor(stem + e) == if Lower(e) == ".docx" then DocxReader else TextReader
  {
    Paths.ExtOfAppended(stem, e);
  }

  lemma LowerDocx()
    ensures Lower(".docx") == ".docx" && Lower(".DocX") == ".docx"
  {
  }

  /** Four cases of the dispatch: ".docx" and ".DocX" go to the Word
      reader, ".pdf" and ".docx.txt" to the text reader. The general rule
      is `ReaderForAppended`. */
  lemma ReaderDispatch(stem: string)
    requires |stem| > 0 && stem[|stem| - 1] != '/' && stem[|stem| - 1] != '.'
    ensures ReaderFor(stem + ".docx") == DocxReader
    ensures ReaderFor(stem + ".DocX") == DocxReader
    ensures ReaderFor(stem + ".pdf") == TextReader
    ensures ReaderFor(stem + ".docx.txt") == TextReader
  {
    LowerDocx();
    ReaderForAppended(stem, ".docx");
    ReaderForAppended(stem, ".DocX");
    ReaderForAppended(stem, ".pdf");
    ReaderDoubleExt(stem);
  }

  lemma ReaderDoubleExt(stem: string)
    requires |stem| > 0 && stem[|stem| - 1] != '/' && stem[|stem| - 1] != '.'
    ensures ReaderFor(stem + ".docx.txt") == TextReader
  {
    assert stem + ".docx.txt" == (stem + ".docx") + ".txt";
    ReaderForAppended(stem + ".docx", ".txt");
  }

  /** The paragraphs of the example below: a heading "H1" and the lines
      "a" and "b". */
  function ExampleParagraphs(): seq<Paragraph> {
    [Paragraph([Docx.Run("H1", None, None)], "Heading 1"),
     Paragraph([Docx.Run("a", None, None)], "Normal"),
     Paragraph([Docx.Run("b", None, None)], "Normal")]
  }

  lemma ExampleGroups()
    ensures RawGroups(ExampleParagraphs(), ["Heading 1"]) == [["H1", "a", "b"]]
  {
    var ps, hs := ExampleParagraphs(), ["Heading 1"];
    assert ParagraphText(ps[0]) == "H1";
    assert ParagraphText(ps[1]) == "a";
    assert ParagraphText(ps[2]) == "b";
    assert IsHeading(ps[0], hs) && !IsHeading(ps[1], hs) && !IsHeading(ps[2], hs);
    assert ps[1..][1..] == ps[2..] && ps[2..][1..] == ps[3..];
    assert GroupFold(ps, hs, []) == GroupFold(ps[1..], hs, ["H1"]);
    assert GroupFold(ps[1..], hs, ["H1"]) == GroupFold(ps[2..], hs, ["H1"] + ["a"]);
    assert ["H1"] + ["a"] == ["H1", "a"] && ["H1", "a"] + ["b"] == ["H1", "a", "b"];
    assert GroupFold(ps[2..], hs, ["H1", "a"]) == GroupFold(ps[3..], hs, ["H1", "a", "b"]);
    assert |ps[3..]| == 0;
  }

  lemma ExampleMerge()
    ensures Merge([["H1", "a", "b"]], 5) == [Section(None, "H1", "a\nb")]
  {
    var g: Group := ["H1", "a", "b"];
    assert Join("\n", g[1..]) == "a\nb" by {
      assert g[1..] == ["a", "b"];
    }
    assert OwnContent(g) == "a\nb";
    assert [g][1..] == [];
  }

  /** A document made of a heading "H1" and the lines "a" and "b", with
      threshold 5, becomes one section "H1" holding "a\nb". */
  lemma SingleHeadingExample()
    ensures ParseDocx([Paragraph([Docx.Run("H1", None, None)], "Heading 1"),
                       Paragraph([Docx.Run("a", None, None)], "Normal"),
                       Paragraph([Docx.Run("b", None, None)], "Normal")],
                      ["Heading 1"], 5)
            == [Section(None, "H1", "a\nb")]
  {
    ExampleGroups();
    ExampleMerge();
  }
}
