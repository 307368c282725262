/** The two section-processing loops: the generic one of the base class,
    which filters every reply through `postprocess`, and the one of the
    completion-service processors, which skips small sections, wraps the
    raw reply in an id-keyed record and never calls `postprocess`. The
    completion service is a function from (instruction, content) to an
    optional reply; each loop also returns the requests it made, in order. */
module Processing {
  import opened Common
  import opened Text
  import opened Processors

  /** The completion service: `None` stands for a failed request. */
  type Client = (string, string) -> Option<string>

  /** One request: the instruction and the section content. */
  type Request = (string, string)

  // -----------------------------------------------------------------------
  // The base loop

  /** What the base loop keeps for one section: the postprocessed reply,
      when the reply and the postprocessed value are both truthy. */
  function BaseOutput(p: Processor, client: Client, s: Section): seq<string> {
    var c := client(BuildPrompt(p), s.content);
    if Truthy(c) && Truthy(Postprocess(p, c.value)) then [Postprocess(p, c.value).value] else []
  }

  /** The base loop's results, section by section. */
  function BaseResults(p: Processor, client: Client, sections: seq<Section>): seq<string>
    decreases |sections|
  {
    if |sections| == 0 then []
    else BaseResults(p, client, sections[..|sections| - 1]) + BaseOutput(p, client, sections[|sections| - 1])
  }

  /** `BaseProcessor.process_sections`: one request per section, in order,
      with the processor's instruction and the section's content. */
  method ProcessBase(p: Processor, client: Client, sections: seq<Section>) returns (results: seq<string>, requests: seq<Request>)
    ensures results == BaseResults(p, client, sections)
    ensures |requests| == |sections|
    ensures forall i :: 0 <= i < |sections| ==> requests[i] == (BuildPrompt(p), sections[i].content)
  {
    results, requests := [], [];
    var prompt := BuildPrompt(p);
    for i := 0 to |sections|
      invariant results == BaseResults(p, client, sections[..i])
      invariant |requests| == i
      invariant forall j :: 0 <= j < i ==> requests[j] == (prompt, sections[j].content)
    {
      var s := sections[i];
      var c := client(prompt, s.content);
      requests := requests + [(prompt, s.content)];
      if Truthy(c) {
        var res := Postprocess(p, c.value);
        if Truthy(res) {
          results := results + [res.value];
        }
      }
      assert sections[..i + 1][..i] == sections[..i];
    }
    assert sections[..|sections|] == sections;
  }

  /** Results for consecutive runs of sections concatenate: the loop keeps
      the order of the sections. */
  lemma {:induction false} BaseResultsAppend(p: Processor, client: Client, a: seq<Section>, b: seq<Section>)
    ensures BaseResults(p, client, a + b) == BaseResults(p, client, a) + BaseResults(p, client, b)
    decreases |b|
  {
    if |b| == 0 {
      assert a + b == a;
    } else {
      var n := |b| - 1;
      assert (a + b)[..|a + b| - 1] == a + b[..n];
      BaseResultsAppend(p, client, a, b[..n]);
    }
  }

  /** At most one result per section, and each result is the processor's
      acceptance of some section's reply. */
  lemma {:induction false} BaseResultsBound(p: Processor, client: Client, sections: seq<Section>)
    ensures |BaseResults(p, client, sections)| <= |sections|
    ensures forall r :: r in BaseResults(p, client, sections) ==>
      r != "" && exists i :: 0 <= i < |sections| && client(BuildPrompt(p), sections[i].content) == Some(r)
    decreases |sections|
  {
    if |sections| > 0 {
      var n := |sections| - 1;
      BaseResultsBound(p, client, sections[..n]);
      forall r | r in BaseResults(p, client, sections)
        ensures r != "" && exists i :: 0 <= i < |sections| && client(BuildPrompt(p), sections[i].content) == Some(r)
      {
        if r in BaseResults(p, client, sections[..n]) {
          var i :| 0 <= i < n && client(BuildPrompt(p), sections[..n][i].content) == Some(r);
          assert sections[..n][i] == sections[i];
        } else {
          assert client(BuildPrompt(p), sections[n].content) == Some(r);
        }
      }
    }
  }

  /** A reviewer never keeps its own "nothing found" reply. */
  lemma BaseDropsNothingFound(p: Processor, client: Client, sections: seq<Section>)
    requires p.kind in {Grammar, Reviewer, Scientific}
    ensures forall r :: r in BaseResults(p, client, sections) ==> Lower(r) != NothingFound(p.kind).value
  {
    forall r | r in BaseResults(p, client, sections)
      ensures Lower(r) != NothingFound(p.kind).value
    {
      BaseKeepsAccepted(p, client, sections, r);
    }
  }

  lemma {:induction false} BaseKeepsAccepted(p: Processor, client: Client, sections: seq<Section>, r: string)
    requires r in BaseResults(p, client, sections)
    ensures Postprocess(p, r) == Some(r)
    decreases |sections|
  {
    var n := |sections| - 1;
    if r in BaseResults(p, client, sections[..n]) {
      BaseKeepsAccepted(p, client, sections[..n], r);
    }
  }

  // -----------------------------------------------------------------------
  // The completion-service loop

  /** The instruction sent with every section: `f"{build_prompt()}. {additional}"`. */
  function Instruction(p: Processor): string {
    BuildPrompt(p) + ". " + p.additional
  }

  /** The processor's `do_not_process`, as a test on the content. */
  function Skip(p: Processor): string -> bool {
    content => DoNotProcess(p, content)
  }

  /** The id a section's record carries: its own id, or the counter, which
      is still 0 because it is only incremented after the loop. */
  function RecordId(s: Section): Key {
    s.id.GetOr(Index(0))
  }

  /** What the loop produces for one section, given the instruction and
      the skip test: a skipped section comes back as it is; otherwise the
      raw reply, when truthy. */
  function Output(ins: string, skip: string -> bool, client: Client, s: Section): seq<Rendered> {
    if skip(s.content) then [Rendered(RecordId(s), s.content, None)]
    else
      var c := client(ins, s.content);
      if Truthy(c) then [Rendered(RecordId(s), c.value, None)] else []
  }

  function Records(ins: string, skip: string -> bool, client: Client, sections: seq<Section>): seq<Rendered>
    decreases |sections|
  {
    if |sections| == 0 then []
    else Records(ins, skip, client, sections[..|sections| - 1]) + Output(ins, skip, client, sections[|sections| - 1])
  }

  /** The requests the loop makes: one per section it does not skip. */
  function Sent(ins: string, skip: string -> bool, sections: seq<Section>): seq<Request>
    decreases |sections|
  {
    if |sections| == 0 then []
    else
      var s := sections[|sections| - 1];
      Sent(ins, skip, sections[..|sections| - 1]) + (if skip(s.content) then [] else [(ins, s.content)])
  }

  /** The records of a processor's loop. */
  function OpenAIResults(p: Processor, client: Client, sections: seq<Section>): seq<Rendered> {
    Records(Instruction(p), Skip(p), client, sections)
  }

  /** The requests of a processor's loop. */
  function OpenAIRequests(p: Processor, sections: seq<Section>): seq<Request> {
    Sent(Instruction(p), Skip(p), sections)
  }

  /** `BaseOpenAIProcessor.process_sections`. */
  method ProcessOpenAI(p: Processor, client: Client, sections: seq<Section>) returns (results: seq<Rendered>, requests: seq<Request>)
    ensures results == OpenAIResults(p, client, sections)
    ensures requests == OpenAIRequests(p, sections)
  {
    var ins, skip := Instruction(p), Skip(p);
    results, requests := [], [];
    var idx := 0;
    for i := 0 to |sections|
      invariant results == Records(ins, skip, client, sections[..i])
      invariant requests == Sent(ins, skip, sections[..i])
      invariant idx == 0
    {
      var s := sections[i];
      var sectionId := s.id.GetOr(Index(idx));
      assert sections[..i + 1][..i] == sections[..i];
      if DoNotProcess(p, s.content) {
        results := results + [Rendered(sectionId, s.content, None)];
        continue;
      }
      var c := client(ins, s.content);
      requests := requests + [(ins, s.content)];
      if Truthy(c) {
        results := results + [Rendered(sectionId, c.value, None)];
      }
    }
    idx := idx + 1;
    assert sections[..|sections|] == sections;
  }

  /** Records for consecutive runs of sections concatenate: the loop keeps
      the order of the sections. */
  lemma {:induction false} RecordsAppend(ins: string, skip: string -> bool, client: Client, a: seq<Section>, b: seq<Section>)
    ensures Records(ins, skip, client, a + b) == Records(ins, skip, client, a) + Records(ins, skip, client, b)
    decreases |b|
  {
    if |b| == 0 {
      assert a + b == a;
    } else {
      var n := |b| - 1;
      assert (a + b)[..|a + b| - 1] == a + b[..n];
      RecordsAppend(ins, skip, client, a, b[..n]);
    }
  }

  lemma OpenAIResultsAppend(p: Processor, client: Client, a: seq<Section>, b: seq<Section>)
    ensures OpenAIResults(p, client, a + b) == OpenAIResults(p, client, a) + OpenAIResults(p, client, b)
  {
    RecordsAppend(Instruction(p), Skip(p), client, a, b);
  }

  /** At most one record per section; every record carries its section's
      id or 0, and holds either the section's own content or the
      unfiltered reply of the service. */
  lemma {:induction false} RecordsShape(ins: string, skip: string -> bool, client: Client, sections: seq<Section>)
    ensures |Records(ins, skip, client, sections)| <= |sections|
    ensures forall r :: r in Records(ins, skip, client, sections) ==>
      r.styleName.None? &&
      exists i :: 0 <= i < |sections| && r.id == RecordId(sections[i]) &&
        (r.content == sections[i].content || client(ins, sections[i].content) == Some(r.content))
    decreases |sections|
  {
    if |sections| > 0 {
      var n := |sections| - 1;
      RecordsShape(ins, skip, client, sections[..n]);
      forall r | r in Records(ins, skip, client, sections)
        ensures r.styleName.None? &&
          exists i :: 0 <= i < |sections| && r.id == RecordId(sections[i]) &&
            (r.content == sections[i].content || client(ins, sections[i].content) == Some(r.content))
      {
        if r in Records(ins, skip, client, sections[..n]) {
          var i :| 0 <= i < n && r.id == RecordId(sections[..n][i]) &&
            (r.content == sections[..n][i].content || client(ins, sections[..n][i].content) == Some(r.content));
          assert sections[..n][i] == sections[i];
        } else {
          assert r.id == RecordId(sections[n]);
        }
      }
    }
  }

  lemma OpenAIResultsShape(p: Processor, client: Client, sections: seq<Section>)
    ensures |OpenAIResults(p, client, sections)| <= |sections|
    ensures forall r :: r in OpenAIResults(p, client, sections) ==>
      r.styleName.None? &&
      exists i :: 0 <= i < |sections| && r.id == RecordId(sections[i]) &&
        (r.content == sections[i].content || client(Instruction(p), sections[i].content) == Some(r.content))
  {
    RecordsShape(Instruction(p), Skip(p), client, sections);
  }

  /** Every section the processor skips yields exactly its own content
      under its id, whatever the service would have said. */
  lemma SkippedSectionKept(p: Processor, client: Client, s: Section)
    requires DoNotProcess(p, s.content)
    ensures OpenAIResults(p, client, [s]) == [Rendered(RecordId(s), s.content, None)]
  {
    assert Skip(p)(s.content);
    SkippedRecord(Instruction(p), Skip(p), client, s);
  }

  lemma SkippedRecord(ins: string, skip: string -> bool, client: Client, s: Section)
    requires skip(s.content)
    ensures Records(ins, skip, client, [s]) == [Rendered(RecordId(s), s.content, None)]
  {
    assert [s][..0] == [];
  }

  /** Two sections without ids both come back under id 0. */
  lemma IdlessSectionsShareId(p: Processor, client: Client, a: Section, b: Section)
    requires a.id.None? && b.id.None?
    requires DoNotProcess(p, a.content) && DoNotProcess(p, b.content)
    ensures OpenAIResults(p, client, [a, b]) == [Rendered(Index(0), a.content, None), Rendered(Index(0), b.content, None)]
  {
    assert [a, b] == [a] + [b];
    OpenAIResultsAppend(p, client, [a], [b]);
    SkippedSectionKept(p, client, a);
    SkippedSectionKept(p, client, b);
  }

  /** A section that is not skipped yields the service's truthy reply as
      it is. */
  lemma SentSectionReply(ins: string, skip: string -> bool, client: Client, s: Section, reply: string)
    requires !skip(s.content) && client(ins, s.content) == Some(reply) && reply != ""
    ensures Records(ins, skip, client, [s]) == [Rendered(RecordId(s), reply, None)]
  {
    assert [s][..0] == [];
  }

  /** `postprocess` is not on this path: a grammar reviewer's "nothing
      found" reply is passed through as the section's result. */
  lemma OpenAIKeepsNothingFound(p: Processor, client: Client, s: Section)
    requires p.kind == Grammar && !DoNotProcess(p, s.content)
    requires client(Instruction(p), s.content) == Some("NO SERIOUS ERRORS HERE")
    ensures OpenAIResults(p, client, [s]) == [Rendered(RecordId(s), "NO SERIOUS ERRORS HERE", None)]
    ensures Postprocess(p, "NO SERIOUS ERRORS HERE").None?
  {
    assert !Skip(p)(s.content);
    SentSectionReply(Instruction(p), Skip(p), client, s, "NO SERIOUS ERRORS HERE");
    GrammarDropsOwnReply(p);
  }
}
