/** `Prompter`: the fixed two-slot code-generation template and the
    clean-up of the model's answer in `generate_response`. */
module Prompt {
  import opened Wrappers
  import opened PyStr

  /** What `generate_response` returns when the model gives nothing. */
  const Placeholder: string := "No valid response received."

  /** A template, as the text between its slots and the slots themselves. */
  datatype Segment = Text(text: string) | Slot(name: string)

  /** The variables the template declares. */
  const InputVariables: seq<string> := ["context", "question"]

  const Instructions: string :=
    "You are a coding assistant specializing in software development. Your task is to generate only executable code. Follow these strict rules:\n\n"
    + "1. Output only functional code.\n"
    + "2. Do not include print statements, comments, explanations, or UI components (e.g., Streamlit).\n"
    + "3. Ensure the code is complete, syntactically correct, and ready to run without modification.\n\n"
    + "## Task\n"

  const ContextHeading: string := "\n\n## Context (if relevant)\n"

  const OutputHeading: string := "\n\n## Output (Code Only)\n"

  /** The template built once by `_create_prompt_template`. */
  const Template: seq<Segment> :=
    [Text(Instructions), Slot("question"), Text(ContextHeading), Slot("context"), Text(OutputHeading)]

  /** The slot names of a template, in the order they appear. */
  function SlotNames(t: seq<Segment>): (names: seq<string>)
    ensures |names| <= |t|
    ensures forall n :: n in names <==> exists i :: 0 <= i < |t| && t[i] == Slot(n)
  {
    if t == [] then []
    else
      var rest := SlotNames(t[1..]);
      assert forall i :: 1 <= i < |t| ==> t[i] == t[1..][i - 1];
      match t[0]
      case Text(_) => rest
      case Slot(n) => [n] + rest
  }

  /** The template's slots are exactly its declared variables: the question
      comes first, then the context, each once. */
  lemma TemplateSlots()
    ensures SlotNames(Template) == ["question", "context"]
    ensures (set n | n in SlotNames(Template)) == (set n | n in InputVariables)
  {
    var t := Template;
    assert t[1..][1..][1..][1..][1..] == [];
    assert SlotNames(t[1..][1..][1..][1..]) == [];
    assert SlotNames(t[1..][1..][1..]) == ["context"];
    assert SlotNames(t[1..][1..]) == ["context"];
    assert SlotNames(t[1..]) == ["question", "context"];
  }

  /** The template filled in with `values`; every slot must be bound (a
      missing variable is an error in the template library). */
  function Render(t: seq<Segment>, values: map<string, string>): string
    requires forall i :: 0 <= i < |t| && t[i].Slot? ==> t[i].name in values
  {
    if t == [] then ""
    else
      assert forall i :: 1 <= i < |t[1..]| ==> t[1..][i] == t[i + 1];
      var head := match t[0] case Text(s) => s case Slot(n) => values[n];
      head + Render(t[1..], values)
  }

  /** Filling a template in is done segment by segment: the rendering of two
      templates side by side is the two renderings side by side. */
  lemma {:induction false} RenderAppend(t1: seq<Segment>, t2: seq<Segment>, values: map<string, string>)
    requires forall i :: 0 <= i < |t1| && t1[i].Slot? ==> t1[i].name in values
    requires forall i :: 0 <= i < |t2| && t2[i].Slot? ==> t2[i].name in values
    ensures forall i :: 0 <= i < |t1 + t2| && (t1 + t2)[i].Slot? ==> (t1 + t2)[i].name in values
    ensures Render(t1 + t2, values) == Render(t1, values) + Render(t2, values)
    decreases |t1|
  {
    var t := t1 + t2;
    forall i | 0 <= i < |t| && t[i].Slot? ensures t[i].name in values {
      if i >= |t1| {
        assert t[i] == t2[i - |t1|];
      }
    }
    if t1 == [] {
      assert t == t2;
    } else {
      assert t[0] == t1[0] && t[1..] == t1[1..] + t2;
      assert forall i :: 0 <= i < |t1[1..]| ==> t1[1..][i] == t1[i + 1];
      RenderAppend(t1[1..], t2, values);
    }
  }

  /** The prompt sent to the model for a question and a retrieved context:
      the instructions, then the question, then the context, each under its
      heading. */
  function RenderedPrompt(question: string, context: string): (p: string)
    ensures p == Instructions + question + ContextHeading + context + OutputHeading
  {
    var values := map["question" := question, "context" := context];
    var t := Template;
    assert t[1..][1..][1..][1..][1..] == [];
    assert Render(t[1..][1..][1..][1..], values) == OutputHeading;
    assert Render(t[1..][1..][1..], values) == context + OutputHeading;
    assert Render(t[1..][1..], values) == ContextHeading + context + OutputHeading;
    assert Render(t[1..], values) == question + ContextHeading + context + OutputHeading;
    Render(t, values)
  }

  /** The question is placed before the context, both in full and unchanged. */
  lemma QuestionPrecedesContext(question: string, context: string)
    ensures var p := RenderedPrompt(question, context);
            var q := |Instructions|;
            var c := q + |question| + |ContextHeading|;
            && p[q..q + |question|] == question
            && c + |context| <= |p| && p[c..c + |context|] == context
  {
    FiveParts(Instructions, question, ContextHeading, context, OutputHeading);
  }

  /** Where the second and fourth parts sit in a concatenation of five. */
  lemma FiveParts(a: string, q: string, b: string, c: string, d: string)
    ensures var p := a + q + b + c + d;
            var i := |a| + |q| + |b|;
            && p[|a|..|a| + |q|] == q
            && i + |c| <= |p| && p[i..i + |c|] == c
  {
    var p := a + q + b + c + d;
    assert p == a + (q + (b + (c + d)));
    assert p[|a|..] == q + (b + (c + d));
    assert p[|a| + |q| + |b|..] == c + d;
  }

  /** The clean-up of the model's answer: an absent or empty answer becomes
      the placeholder; anything else is stripped of surrounding whitespace,
      so a whitespace-only answer becomes the empty string. */
  function CleanResponse(response: Option<string>): (r: string)
    ensures response == None || response == Some("") ==> r == Placeholder
    ensures response.Some? && response.value != "" ==>
              (exists i :: StrippedAt(response.value, r, i))
              && (r == "" <==> AllSpace(response.value))
    ensures r == "" || (!IsSpace(r[0]) && !IsSpace(r[|r| - 1]))
  {
    if response.Some? && response.value != "" then
      StripEmptyIff(response.value);
      Strip(response.value)
    else
      Placeholder
  }

  /** `generate_response`: the model, an external call, is given the rendered
      prompt and its answer is cleaned up: the placeholder when it is absent
      or empty, otherwise the answer with its leading and trailing
      whitespace removed and nothing else. */
  function GenerateResponse(query: string, contextText: string,
                            model: string -> Option<string>): (r: string)
    ensures var answer := model(RenderedPrompt(query, contextText));
            && (answer == None || answer == Some("") ==> r == Placeholder)
            && (answer.Some? && answer.value != "" ==>
                  && (exists i :: StrippedAt(answer.value, r, i))
                  && (r == "" <==> AllSpace(answer.value)))
            && (r == "" || (!IsSpace(r[0]) && !IsSpace(r[|r| - 1])))
  {
    CleanResponse(model(RenderedPrompt(query, contextText)))
  }

  /** A whitespace-only answer yields the empty string, not the placeholder:
      emptiness is tested before stripping. */
  lemma WhitespaceOnlyIsEmpty(s: string)
    requires s != "" && AllSpace(s)
    ensures CleanResponse(Some(s)) == "" && CleanResponse(Some(s)) != Placeholder
  {
  }

  /** Cleaning a non-empty cleaned result again returns it unchanged. */
  lemma CleanIdempotent(response: Option<string>)
    ensures var c := CleanResponse(response);
            c != "" ==> CleanResponse(Some(c)) == c
  {
    var c := CleanResponse(response);
    if c == Placeholder {
      assert Placeholder[0] == 'N' && Placeholder[|Placeholder| - 1] == '.';
    } else if c != "" {
      StripIdempotent(response.value);
    }
  }
}
