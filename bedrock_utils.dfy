/**
 * The local logic of the heavy-machinery RAG chat (bedrock_utils.py): how
 * retrieved chunks become the grounded prompt (`build_rag_prompt`), when the
 * classifier's reply lets a request through (`valid_prompt`), and how the chat
 * loop of `main` treats each input line before anything is sent to Bedrock.
 *
 * The Bedrock calls themselves (classification, retrieval, generation) are
 * outside the model: their replies are parameters.
 */
module BedrockUtils {
  import opened Wrappers
  import opened PyStr

  /** The context used when retrieval found nothing. */
  const NoDocuments: string := "No relevant documents were retrieved for this question."
  /** The source shown for a chunk whose metadata has no source URI. */
  const UnknownSource: string := "unknown source"
  /** Chunks are separated by a blank line. */
  const ChunkSeparator: string := "\n\n"
  /** The only classifier answer that lets a request through. */
  const AcceptedCategory: string := "category e"

  /** The prompt template, up to and including the line "Context:". */
  const PromptHead: string :=
    "You are a helpful assistant specialized in heavy machinery.\n\n"
    + "Use ONLY the information in the context below to answer the user's question.\n"
    + "If the answer is not clearly contained in the context, say you do not know.\n\n"
    + "Context:\n"
  /** The template between the context and the question. */
  const QuestionHeading: string := "\n\nQuestion:\n"
  /** The end of the template. */
  const AnswerCue: string := "\n\nAnswer:"

  /** The value under a retrieval result's "content" key. */
  datatype Content =
    | TextDict(text: Option<string>)        // a dict; None when it has no "text" key
    | DictList(texts: seq<Option<string>>)  // a list of dicts; each one's "text", None when absent
    | Falsy                                  // None or another empty, non-dict value

  /** A retrieval result's "metadata" dict: only the source URI key is read. */
  datatype Metadata = Metadata(sourceUri: Option<string>)

  /** One item of `retrievalResults`; None stands for a missing key. */
  datatype RetrievalResult = RetrievalResult(content: Option<Content>, metadata: Option<Metadata>)

  /** How an f-string shows a value that is a `str` or `None`. */
  function Render(v: Option<string>): string {
    v.GetOr("None")
  }

  /**
   * The chunk's text: a missing "content" defaults to `{}`, a dict, so a
   * missing content and a dict without "text" both show as "None"; a list
   * gives its first dict's "text", "" when that dict has none or the list is
   * empty; any other empty value gives "".
   */
  function ChunkText(content: Option<Content>): (text: string)
    ensures content.None? ==> text == "None"
    ensures content == Some(TextDict(None)) ==> text == "None"
    ensures forall t :: content == Some(TextDict(Some(t))) ==> text == t
    ensures content.Some? && content.value.DictList? && content.value.texts != [] ==>
              text == content.value.texts[0].GetOr("")
    ensures content == Some(DictList([])) || content == Some(Falsy) ==> text == ""
  {
    match content.GetOr(TextDict(None))
    case TextDict(t) => Render(t)
    case DictList(texts) => if texts == [] then "" else texts[0].GetOr("")
    case Falsy => ""
  }

  /** The chunk's source: the metadata's source URI, "unknown source" without one. */
  function Source(metadata: Option<Metadata>): (source: string)
    ensures metadata.None? || metadata.value.sourceUri.None? ==> source == UnknownSource
    ensures forall u :: metadata == Some(Metadata(Some(u))) ==> source == u
  {
    metadata.GetOr(Metadata(None)).sourceUri.GetOr(UnknownSource)
  }

  /** The entry for the result numbered `i`. */
  function Chunk(i: nat, item: RetrievalResult): string {
    "Chunk " + Decimal(i) + " (source: " + Source(item.metadata) + "):\n" + ChunkText(item.content)
  }

  /** The entries for all results, numbered from 1 in retrieval order. */
  function Chunks(results: seq<RetrievalResult>): (chunks: seq<string>)
    ensures |chunks| == |results|
  {
    seq(|results|, i requires 0 <= i < |results| => Chunk(i + 1, results[i]))
  }

  /** The context block of the prompt. */
  function Context(results: seq<RetrievalResult>): string {
    if |results| == 0 then NoDocuments else Join(Chunks(results), ChunkSeparator)
  }

  /** The prompt template filled with a context and a question. */
  function Prompt(question: string, context: string): string {
    PromptHead + context + QuestionHeading + question + AnswerCue
  }

  /**
   * `build_rag_prompt`: number the retrieved chunks, join them with blank
   * lines (or use the fixed sentence when there are none) and place context
   * and question in the template.
   */
  method BuildRagPrompt(question: string, results: seq<RetrievalResult>) returns (prompt: string)
    ensures prompt == Prompt(question, Context(results))
    ensures |results| == 0 ==> prompt == Prompt(question, NoDocuments)
  {
    var context: string;
    if |results| == 0 {
      context := NoDocuments;
    } else {
      var chunks: seq<string> := [];
      var i := 0;
      while i < |results|
        invariant 0 <= i <= |results|
        invariant |chunks| == i
        invariant forall j :: 0 <= j < i ==> chunks[j] == Chunk(j + 1, results[j])
      {
        var item := results[i];
        var text := ChunkText(item.content);
        var source := Source(item.metadata);
        chunks := chunks + ["Chunk " + Decimal(i + 1) + " (source: " + source + "):\n" + text];
        i := i + 1;
      }
      assert chunks == Chunks(results);
      context := Join(chunks, ChunkSeparator);
    }
    prompt := PromptHead + context + QuestionHeading + question + AnswerCue;
  }

  /**
   * The prompt is the fixed instructions ending in "Context:\n", then the
   * context, then "\n\nQuestion:\n" and the question, and it ends with
   * "\n\nAnswer:".
   */
  lemma PromptLayout(question: string, context: string)
    ensures var prompt := Prompt(question, context);
      var at := |PromptHead| + |context| + |QuestionHeading|;
      && |prompt| == at + |question| + |AnswerCue|
      && prompt[..|PromptHead|] == PromptHead
      && prompt[|PromptHead|..|PromptHead| + |context|] == context
      && prompt[|PromptHead| + |context|..at] == QuestionHeading
      && prompt[at..at + |question|] == question
      && prompt[at + |question|..] == AnswerCue
  {
    var prompt := Prompt(question, context);
    var a := PromptHead + context;
    var b := a + QuestionHeading;
    var c := b + question;
    assert prompt == c + AnswerCue;
    assert prompt[..|c|] == c;
    assert c[..|b|] == b;
    assert b[..|a|] == a;
    assert prompt[..|PromptHead|] == a[..|PromptHead|];
    assert prompt[|PromptHead|..|a|] == a[|PromptHead|..];
    assert prompt[|a|..|b|] == b[|a|..];
    assert prompt[|b|..|c|] == c[|b|..];
  }

  /**
   * The entry for result i (from 0) reads "Chunk <i+1> (source: <source>):\n<text>",
   * and the number in its label reads back as i + 1.
   */
  lemma ChunkLabel(results: seq<RetrievalResult>, i: nat)
    requires i < |results|
    ensures var number := Decimal(i + 1);
      && Chunks(results)[i] == "Chunk " + number + " (source: " + Source(results[i].metadata) + "):\n"
                               + ChunkText(results[i].content)
      && DigitsValue(number) == i + 1
  {
    DecimalRoundTrip(i + 1);
  }

  /**
   * With results, the context holds the entry for each result i (from 0) at
   * `Offset(Chunks(results), "\n\n", i)`, in retrieval order.
   */
  lemma ContextHoldsChunk(results: seq<RetrievalResult>, i: nat)
    requires i < |results|
    ensures var at := Offset(Chunks(results), ChunkSeparator, i);
      && at + |Chunks(results)[i]| <= |Context(results)|
      && Context(results)[at..at + |Chunks(results)[i]|] == Chunks(results)[i]
  {
    assert Context(results) == Join(Chunks(results), ChunkSeparator);
    JoinPart(Chunks(results), ChunkSeparator, i);
  }

  /** A blank line separates each chunk from the next, which begins right after it. */
  lemma ContextSeparatesChunks(results: seq<RetrievalResult>, i: nat)
    requires i + 1 < |results|
    ensures var end := Offset(Chunks(results), ChunkSeparator, i) + |Chunks(results)[i]|;
      && Offset(Chunks(results), ChunkSeparator, i + 1) == end + |ChunkSeparator| <= |Context(results)|
      && Context(results)[end..end + |ChunkSeparator|] == ChunkSeparator
  {
    assert Context(results) == Join(Chunks(results), ChunkSeparator);
    JoinSep(Chunks(results), ChunkSeparator, i);
  }

  /** The last chunk ends the context: nothing follows it. */
  lemma ContextEndsWithLastChunk(results: seq<RetrievalResult>)
    requires |results| > 0
    ensures var last := |results| - 1;
      Offset(Chunks(results), ChunkSeparator, last) + |Chunks(results)[last]| == |Context(results)|
  {
    assert Context(results) == Join(Chunks(results), ChunkSeparator);
    JoinEnd(Chunks(results), ChunkSeparator);
  }

  /**
   * `category.lower().strip() == "category e"`: the reply accepted by the
   * classifier check.
   */
  function Accepts(category: string): bool {
    Strip(Lower(category)) == AcceptedCategory
  }

  /**
   * A classifier reply is accepted exactly when, apart from white space on
   * either side, it reads "category e" in some mix of upper and lower case.
   */
  lemma AcceptsExactly(category: string)
    ensures Accepts(category) <==>
      exists i, j :: Framed(category, i, j) && Lower(category[i..j]) == AcceptedCategory
  {
    StripLowerCommute(category);
    MatchesIgnoringCaseAndPadding(category, AcceptedCategory);
  }

  /**
   * `valid_prompt`, given the classifier's reply: None stands for the
   * ClientError that makes it fail closed.
   */
  function ValidPrompt(reply: Option<string>): (ok: bool)
    ensures reply.None? ==> !ok
    ensures reply.Some? ==> (ok <==> Accepts(reply.value))
  {
    match reply
    case None => false
    case Some(category) => Accepts(category)
  }

  /** What `main` does with one input line. */
  datatype Action =
    | Skip                      // blank after stripping: read the next line
    | Leave                     // "exit" or "quit" in any case: end the loop
    | Classify(prompt: string)  // hand the stripped line to the classifier

  /** The per-line decision of the chat loop in `main`. */
  function Triage(line: string): Action {
    var input := Strip(line);
    if input == "" then Skip
    else if Lower(input) == "exit" || Lower(input) == "quit" then Leave
    else Classify(input)
  }

  /** A line is skipped exactly when it is white space throughout. */
  lemma SkipsBlank(line: string)
    ensures Triage(line) == Skip <==> AllSpace(line)
  {
    var stripped := Strip(line);
    var i, j :| Framed(line, i, j) && stripped == line[i..j];
    if AllSpace(line) {
      StripFramed(line, 0, 0);
    }
  }

  /** A line ends the loop exactly when, apart from white space, it reads "exit" or "quit" in any case. */
  lemma LeavesOnExit(line: string)
    ensures Triage(line) == Leave <==>
      exists i, j :: Framed(line, i, j) && (Lower(line[i..j]) == "exit" || Lower(line[i..j]) == "quit")
  {
    MatchesIgnoringCaseAndPadding(line, "exit");
    MatchesIgnoringCaseAndPadding(line, "quit");
  }

  /**
   * Any other line is classified as the line without its surrounding white
   * space, which is then neither empty nor an exit word.
   */
  lemma ClassifiesStripped(line: string)
    ensures Triage(line).Classify? ==>
      var p := Triage(line).prompt;
      && p == Strip(line) && p != ""
      && !IsSpace(p[0]) && !IsSpace(p[|p| - 1])
      && Lower(p) != "exit" && Lower(p) != "quit"
  {
    var stripped := Strip(line);
    var i, j :| Framed(line, i, j) && stripped == line[i..j];
  }

  /** The decision for every input line, in order. */
  function Decisions(lines: seq<string>): (actions: seq<Action>)
    ensures |actions| == |lines|
    ensures forall i :: 0 <= i < |lines| ==> actions[i] == Triage(lines[i])
  {
    seq(|lines|, i requires 0 <= i < |lines| => Triage(lines[i]))
  }

  /**
   * The prompts the chat loop hands to the classifier, given the decision for
   * each line read: lines are read until an exit request or the end of input
   * (EOFError).
   */
  function Forward(actions: seq<Action>): seq<string> {
    if actions == [] then []
    else
      match actions[0]
      case Skip => Forward(actions[1..])
      case Leave => []
      case Classify(p) => [p] + Forward(actions[1..])
  }

  /**
   * The chat loop of `main`, up to the classifier: nothing is read when the
   * model or knowledge base id is not configured; otherwise each line is
   * stripped, skipped when blank, ends the loop on "exit"/"quit", and is
   * forwarded otherwise.
   */
  method ChatLoop(configured: bool, lines: seq<string>) returns (forwarded: seq<string>)
    ensures !configured ==> forwarded == []
    ensures configured ==> forwarded == Forward(Decisions(lines))
  {
    forwarded := [];
    if !configured {
      return;
    }
    ghost var actions := Decisions(lines);
    var i := 0;
    while i < |lines|
      invariant 0 <= i <= |lines|
      invariant forwarded + Forward(actions[i..]) == Forward(actions)
    {
      assert actions[i..][0] == Triage(lines[i]) && actions[i..][1..] == actions[i + 1..];
      var input := Strip(lines[i]);
      if input == "" {
        i := i + 1;
        continue;
      }
      if Lower(input) == "exit" || Lower(input) == "quit" {
        break;
      }
      forwarded := forwarded + [input];
      i := i + 1;
    }
  }

  /** Every forwarded prompt is the decision for some line. */
  lemma {:induction false} ForwardedComesFrom(actions: seq<Action>, p: string)
    requires p in Forward(actions)
    ensures exists k :: 0 <= k < |actions| && actions[k] == Classify(p)
  {
    var rest := actions[1..];
    if actions[0] != Classify(p) {
      ForwardedComesFrom(rest, p);
      var k :| 0 <= k < |rest| && rest[k] == Classify(p);
      assert actions[k + 1] == Classify(p);
    }
  }

  /**
   * Every prompt the chat loop forwards is a non-blank input line stripped of
   * its surrounding white space, and is not an exit request.
   */
  lemma ForwardedClean(lines: seq<string>, p: string)
    requires p in Forward(Decisions(lines))
    ensures p != "" && !IsSpace(p[0]) && !IsSpace(p[|p| - 1])
    ensures Lower(p) != "exit" && Lower(p) != "quit"
    ensures exists k :: 0 <= k < |lines| && p == Strip(lines[k])
  {
    ForwardedComesFrom(Decisions(lines), p);
    var k :| 0 <= k < |lines| && Decisions(lines)[k] == Classify(p);
    ClassifiesStripped(lines[k]);
  }

  /** Nothing after an exit request reaches the classifier. */
  lemma {:induction false} StopsAtExit(actions: seq<Action>, k: nat)
    requires k < |actions| && actions[k] == Leave
    ensures Forward(actions) == Forward(actions[..k])
  {
    if k == 0 {
      assert actions[..k] == [];
    } else {
      var rest := actions[1..];
      assert rest[k - 1] == actions[k];
      StopsAtExit(rest, k - 1);
      assert actions[..k][0] == actions[0];
      assert actions[..k][1..] == rest[..k - 1];
    }
  }
}
