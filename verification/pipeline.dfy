/**
 * The question-answering side (rag/rag_pipeline.py): retrieved chunks
 * become a context of "[source]:\ntext" entries, the context and the
 * question are substituted into the prompt template with Python's
 * `str.format`, and the language model's reply becomes the answer string.
 *
 * The HTTP exchange with the model server is the parameter `llm` (what the
 * server replies to a prompt), and the optional template file is given as
 * its contents, `None` when the file does not exist.
 */
module Pipeline {
  import opened Results
  import opened Text
  import opened Retriever

  const ErrorPrefix := "Error connecting to Ollama: "
  const Separator := "\n\n"

  const ContextField := "{context}"
  const QuestionField := "{question}"

  /** The default template up to the context field, the text between the fields, and the whole template. */
  const Preamble := Instruction + Fallback + "\n" + "Context:\n"
  const Instruction := "You are a helpful assistant. " + "Use the following context " + "to answer the question.\n"
  const Fallback := "If you don't know the answer, " + "just say so.\n"
  const Interlude := "\n\nQuestion:\n"
  const DefaultTemplate := Preamble + ContextField + Interlude + QuestionField + "\n"

  // ---------------------------------------------------------------------------
  // query_llm

  /** What the model server returned: a request failure with its message, or a decoded JSON object. */
  datatype Reply = Failed(message: string) | Received(body: map<string, string>)

  /** A reply without a "response" field raises, and the error reaches the caller. */
  datatype LlmError = MissingResponse

  /** A request failure becomes an answer carrying its message; otherwise the answer is the "response" field. */
  function QueryLlm(reply: Reply): (r: Result<string, LlmError>)
    ensures reply.Failed? ==> r.Ok? && ErrorPrefix <= r.value && r.value[|ErrorPrefix|..] == reply.message
    ensures reply.Received? ==> (r.Ok? <==> "response" in reply.body)
    ensures reply.Received? && r.Ok? ==> r.value == reply.body["response"]
  {
    match reply
    case Failed(message) => Ok(ErrorPrefix + message)
    case Received(body) => if "response" in body then Ok(body["response"]) else Err(MissingResponse)
  }

  // ---------------------------------------------------------------------------
  // load_prompt_template

  /** The template file's contents when it exists, the built-in template otherwise. */
  function LoadPromptTemplate(templateFile: Option<string>): (t: string)
    ensures templateFile.Some? ==> t == templateFile.value
    ensures templateFile.None? ==> t == DefaultTemplate
  {
    match templateFile
    case Some(contents) => contents
    case None => DefaultTemplate
  }

  // ---------------------------------------------------------------------------
  // str.format with the keyword arguments `context` and `question`

  /** Why `str.format` rejects a template: a lone brace, or a field other than the two supplied. */
  datatype FormatError = SingleBrace | UnsupportedField

  predicate NoBraces(s: string) {
    '{' !in s && '}' !in s
  }

  function Prepend(s: string, r: Result<string, FormatError>): Result<string, FormatError> {
    match r
    case Ok(v) => Ok(s + v)
    case Err(e) => Err(e)
  }

  /**
   * `template.format(context=context, question=question)`: doubled braces
   * stand for one brace, `{context}` and `{question}` for the arguments, and
   * the arguments themselves are copied, never scanned for fields.
   */
  function Render(template: string, context: string, question: string): Result<string, FormatError>
    decreases |template|
  {
    if template == [] then Ok([])
    else if template[0] == '{' then
      if |template| >= 2 && template[1] == '{' then Prepend("{", Render(template[2..], context, question))
      else if ContextField <= template then Prepend(context, Render(template[|ContextField|..], context, question))
      else if QuestionField <= template then Prepend(question, Render(template[|QuestionField|..], context, question))
      else if |template| == 1 then Err(SingleBrace)
      else Err(UnsupportedField)
    else if template[0] == '}' then
      if |template| >= 2 && template[1] == '}' then Prepend("}", Render(template[2..], context, question))
      else Err(SingleBrace)
    else Prepend([template[0]], Render(template[1..], context, question))
  }

  /** Text without braces is copied to the output unchanged. */
  lemma {:induction false} RenderLiteral(s: string, rest: string, context: string, question: string)
    requires NoBraces(s)
    ensures Render(s + rest, context, question) == Prepend(s, Render(rest, context, question))
    decreases |s|
  {
    if s == [] {
      assert s + rest == rest;
      match Render(rest, context, question)
      case Ok(v) => assert [] + v == v;
      case Err(_) =>
    } else {
      assert (s + rest)[0] == s[0] && (s + rest)[1..] == s[1..] + rest;
      assert s[0] in s && NoBraces(s[1..]);
      RenderLiteral(s[1..], rest, context, question);
      match Render(rest, context, question)
      case Ok(v) => assert [s[0]] + (s[1..] + v) == s + v;
      case Err(_) =>
    }
  }

  lemma InstructionHasNoBraces()
    ensures NoBraces(Instruction)
  {
    assert NoBraces("You are a helpful assistant. ");
    assert NoBraces("Use the following context ");
    assert NoBraces("to answer the question.\n");
  }

  lemma FallbackHasNoBraces()
    ensures NoBraces(Fallback)
  {
    assert NoBraces("If you don't know the answer, ");
    assert NoBraces("just say so.\n");
  }

  lemma PreambleHasNoBraces()
    ensures NoBraces(Preamble)
  {
    InstructionHasNoBraces();
    FallbackHasNoBraces();
    assert NoBraces("\n" + "Context:\n");
  }

  /** A template starting with the context field yields the context, then the rest of the template rendered. */
  lemma RenderContextField(rest: string, context: string, question: string)
    ensures Render(ContextField + rest, context, question) == Prepend(context, Render(rest, context, question))
  {
    var t := ContextField + rest;
    assert t[0] == '{' && t[1] != '{' && ContextField <= t && t[|ContextField|..] == rest;
  }

  /** A template starting with the question field yields the question, then the rest of the template rendered. */
  lemma RenderQuestionField(rest: string, context: string, question: string)
    ensures Render(QuestionField + rest, context, question) == Prepend(question, Render(rest, context, question))
  {
    var t := QuestionField + rest;
    assert t[0] == '{' && t[1] != '{' && !(ContextField <= t) && QuestionField <= t && t[|QuestionField|..] == rest;
  }

  /** The question field followed by a newline yields the question and the newline. */
  lemma RenderQuestionLine(context: string, question: string)
    ensures Render(QuestionField + "\n", context, question) == Ok(question + "\n")
  {
    RenderLiteral("\n", [], context, question);
    assert "\n" + [] == "\n";
    RenderQuestionField("\n", context, question);
  }

  /** Brace-free text, the question field and a newline. */
  lemma RenderQuestionTail(between: string, context: string, question: string)
    requires NoBraces(between)
    ensures Render(between + (QuestionField + "\n"), context, question) == Ok(between + question + "\n")
  {
    RenderQuestionLine(context, question);
    RenderLiteral(between, QuestionField + "\n", context, question);
    assert between + (question + "\n") == between + question + "\n";
  }

  /**
   * A template made of brace-free text, the context field, brace-free text,
   * the question field and a newline yields the text with the context and
   * the question in place of the fields, whatever the context and the
   * question contain (braces included).
   */
  lemma RenderTwoFields(before: string, between: string, context: string, question: string)
    requires NoBraces(before) && NoBraces(between)
    ensures Render(before + ContextField + between + QuestionField + "\n", context, question)
      == Ok(before + context + between + question + "\n")
  {
    var c, q := context, question;
    var tail := between + (QuestionField + "\n");
    assert Render(ContextField + tail, c, q) == Ok(c + between + q + "\n") by {
      RenderQuestionTail(between, c, q);
      RenderContextField(tail, c, q);
      assert c + (between + q + "\n") == c + between + q + "\n";
    }
    RenderLiteral(before, ContextField + tail, c, q);
    assert before + ContextField + between + QuestionField + "\n" == before + (ContextField + tail);
    assert before + (c + between + q + "\n") == before + c + between + q + "\n";
  }

  /** The default template yields the preamble, the context, the question heading, the question and a newline. */
  lemma RenderDefault(context: string, question: string)
    ensures Render(DefaultTemplate, context, question) == Ok(Preamble + context + Interlude + question + "\n")
  {
    PreambleHasNoBraces();
    assert NoBraces(Interlude);
    RenderTwoFields(Preamble, Interlude, context, question);
  }

  // ---------------------------------------------------------------------------
  // build_prompt

  /** The context entry of one chunk: its source in brackets, a colon and newline, then its text. */
  function Entry(c: Chunk): string {
    "[" + c.source + "]:\n" + c.text
  }

  /** The entries of `chunks`, one per chunk, in chunk order. */
  function Entries(chunks: seq<Chunk>): (es: seq<string>)
    ensures |es| == |chunks|
    ensures forall i :: 0 <= i < |chunks| ==> es[i] == Entry(chunks[i])
  {
    if chunks == [] then [] else [Entry(chunks[0])] + Entries(chunks[1..])
  }

  /** Python's `sep.join(parts)`. */
  function Join(sep: string, parts: seq<string>): string {
    if parts == [] then []
    else if |parts| == 1 then parts[0]
    else Join(sep, parts[..|parts| - 1]) + sep + parts[|parts| - 1]
  }

  /** Joined parts split at any part boundary into the two joins and one separator between them. */
  lemma {:induction false} JoinSplit(sep: string, parts: seq<string>, k: nat)
    requires 0 < k < |parts|
    ensures Join(sep, parts) == Join(sep, parts[..k]) + sep + Join(sep, parts[k..])
    decreases |parts|
  {
    var n := |parts| - 1;
    if k < n {
      JoinSplit(sep, parts[..n], k);
      assert parts[..n][..k] == parts[..k];
      assert parts[k..][..|parts[k..]| - 1] == parts[..n][k..];
    } else {
      assert parts[k..] == [parts[n]];
    }
  }

  /** A join starts with the first part and ends with the last: no leading or trailing separator. */
  lemma {:induction false} JoinEnds(sep: string, parts: seq<string>)
    requires parts != []
    ensures parts[0] <= Join(sep, parts)
    ensures var j := Join(sep, parts); |parts[|parts| - 1]| <= |j| && j[|j| - |parts[|parts| - 1]|..] == parts[|parts| - 1]
    decreases |parts|
  {
    if |parts| > 1 {
      JoinEnds(sep, parts[..|parts| - 1]);
    }
  }

  /** The context the chunks give: their entries joined by blank lines. */
  function Context(chunks: seq<Chunk>): string {
    Join(Separator, Entries(chunks))
  }

  /** The prompt for `chunks` and `question`, or the formatting error. */
  function PromptFor(chunks: seq<Chunk>, question: string, templateFile: Option<string>): Result<string, FormatError> {
    Render(LoadPromptTemplate(templateFile), Context(chunks), question)
  }

  /**
   * Formats one entry per chunk, joins them with blank lines and fills the
   * template; with the built-in template the prompt is the preamble, the
   * context, the question heading, the question and a newline.
   */
  method BuildPrompt(chunks: seq<Chunk>, question: string, templateFile: Option<string>)
    returns (prompt: Result<string, FormatError>)
    ensures prompt == PromptFor(chunks, question, templateFile)
    ensures templateFile.None? ==> prompt == Ok(Preamble + Context(chunks) + Interlude + question + "\n")
  {
    var lines: seq<string> := [];
    for i := 0 to |chunks|
      invariant |lines| == i
      invariant forall j :: 0 <= j < i ==> lines[j] == Entry(chunks[j])
    {
      lines := lines + ["[" + chunks[i].source + "]:\n" + chunks[i].text];
    }
    assert lines == Entries(chunks);
    var context := Join(Separator, lines);
    var template := LoadPromptTemplate(templateFile);
    prompt := Render(template, context, question);
    RenderDefault(context, question);
  }

  // ---------------------------------------------------------------------------
  // run_rag

  datatype RagError = PromptError(format: FormatError) | ReplyError(reply: LlmError)

  /** The answer text together with the chunks the prompt was built from. */
  datatype Answer = Answer(text: string, chunks: seq<Chunk>)

  /**
   * Retrieves the chunks for the question, builds the prompt from them,
   * queries the model and returns the answer with those same chunks.
   */
  method RunRag<V>(question: string, store: Store<V>, embed: string -> V, search: (seq<V>, V, nat) -> seq<int>,
                   templateFile: Option<string>, llm: string -> Reply)
    returns (r: Result<Answer, RagError>)
    requires var labels := search(store.rows, embed(question), DefaultTopK);
      forall j :: 0 <= j < |labels| ==> labels[j] < |store.chunks|
    ensures var chunks := GetRelevantChunks(question, DefaultTopK, store, embed, search);
      var prompt := PromptFor(chunks, question, templateFile);
      && (r.Ok? ==> r.value.chunks == chunks && prompt.Ok? && QueryLlm(llm(prompt.value)) == Ok(r.value.text))
      && (prompt.Err? ==> r == Err(PromptError(prompt.error)))
      && (prompt.Ok? && QueryLlm(llm(prompt.value)).Ok? ==> r == Ok(Answer(QueryLlm(llm(prompt.value)).value, chunks)))
      && (prompt.Ok? && QueryLlm(llm(prompt.value)).Err? ==> r == Err(ReplyError(QueryLlm(llm(prompt.value)).error)))
  {
    var chunks := GetRelevantChunks(question, DefaultTopK, store, embed, search);
    var prompt := BuildPrompt(chunks, question, templateFile);
    if prompt.Err? {
      return Err(PromptError(prompt.error));
    }
    var answer := QueryLlm(llm(prompt.value));
    if answer.Err? {
      return Err(ReplyError(answer.error));
    }
    r := Ok(Answer(answer.value, chunks));
  }
}
