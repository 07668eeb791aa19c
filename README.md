# Vocabulary quiz and RAG prompt helpers, modelled in Dafny

This project models two small, self-contained pieces of local logic:

- **The terminal vocabulary quiz** (`run_quiz`, `terminal-quiz/terminal_quiz/engine.py`).
  A JSON object maps terms to definitions. The optional key `__title__` holds the
  banner title, and the title is `Vocabulary` without it. The session asks every
  other key once, in random order. Each question shows the term's definition with
  up to three definitions of other terms, shuffled. The answer is a 1-based number,
  and the final score counts the correct answers.
- **The local helpers of the heavy-machinery RAG chat**
  (`udacity/future-aws-ai-engineer/ai-rag-doc-query-system/bedrock_utils.py`):
  - `build_rag_prompt` turns retrieval results into a grounded prompt;
  - the classifier check inside `valid_prompt` accepts a reply only when it reads
    `category e`, ignoring letter case and surrounding white space;
  - the chat loop of `main` skips blank lines and stops on `exit` or `quit`.

Modules:

- `Wrappers` (wrappers.dfy): `Option`, standing for `None` and for missing keys.
- `Sampling` (sampling.dfy): what `random.sample` and `random.shuffle` return.
  A *draw* is a list of distinct positions. The module proves that the drawn elements
  form a sub-multiset of the population. A full-length draw (a shuffle) keeps the
  multiset exactly.
- `QuizEngine` (quiz_engine.dfy): the quiz session. A `Setup` is a loaded quiz file
  together with random draws that fit it. `AskAll` is the question loop over the drawn
  order; it keeps `score`, as the source does, and is proved to reach `Play`, the
  state after k iterations. `RunQuiz` wraps it and is proved equal to the
  specification function `Session`. The lemmas state the session's properties about
  `Session` and `Play`.
- `PyStr` (py_str.dfy): `str.strip()`, `str.lower()`, `sep.join(...)` and `str(n)`.
  Each comes with an independent characterisation: the part of a string framed by
  white space, the position of each part in a join, and decimal read-back.
- `BedrockUtils` (bedrock_utils.dfy): the retrieval-result records, the prompt
  builder, the classifier check and the per-line decision of the chat loop.

Inputs that come from outside the program are parameters:

- the loaded quiz file, or its absence;
- the random order, distractor positions and shuffle of each question;
- the input lines, already parsed by `int(...)` for the quiz;
- the classifier's reply, or the `ClientError` raised instead.

Points where the code behaves differently from what a reader might expect:

- The prompt reads `Your choice (1-4)`, but `choices[answer - 1]` uses Python
  indexing (engine.py:33-34). So answers from `1 - len(choices)` to `len(choices)`
  select a choice, and `0` selects the last one. `PyIndex`, `Grade` and
  `AnswerSelects` model this.
- For a missing file `run_quiz` prints a message and returns (`NotFound`). A file
  without terms asks nothing and reports 0 out of 0 (`Completed` with
  `questions == 0`).
- A retrieval result with no `content` key gets the default `{}`, which is a dict.
  Its text is therefore `None` and prints as `None`, not as an empty string
  (`ChunkText`).

## Model

| member | source | states |
|---|---|---|
| `QuizEngine.Title` | terminal-quiz/terminal_quiz/engine.py:15 | the title is the `__title__` value when the key is present and `Vocabulary` otherwise |
| `QuizEngine.Terms` | terminal-quiz/terminal_quiz/engine.py:16 | `words` holds exactly the keys other than `__title__`; with distinct keys it has no duplicates |
| `QuizEngine.TermCount` | terminal-quiz/terminal_quiz/engine.py:16-18 | `questions` equals the number of keys of the mapping other than `__title__` |
| `QuizEngine.OtherDefs` | terminal-quiz/terminal_quiz/engine.py:24 | `all_defs` holds exactly the definitions of terms other than `word`; its length is `len(words)` minus the occurrences of `word` |
| `QuizEngine.Choices` | terminal-quiz/terminal_quiz/engine.py:25-26 | `choices` has `min(3, len(all_defs)) + 1` entries |
| `QuizEngine.ChoicesShape` | terminal-quiz/terminal_quiz/engine.py:25-26 | as a multiset, `choices` is the sampled distractors plus `correct_def`; the distractors are a sub-multiset of `all_defs`, drawn without replacement; `choices` contains `correct_def`, and every other entry comes from `all_defs` |
| `QuizEngine.PyIndex` | terminal-quiz/terminal_quiz/engine.py:34 | Python's `xs[i]` reads a position exactly when `-len <= i < len`; the position is below `len` and is `i` itself, or `len + i` for a negative `i` |
| `QuizEngine.Grade` | terminal-quiz/terminal_quiz/engine.py:32-40 | an answer is invalid exactly when it is not an integer or `answer - 1` is outside `[-len, len)`; otherwise it is correct iff the selected choice equals `correct_def` |
| `QuizEngine.AskShape` | terminal-quiz/terminal_quiz/engine.py:23-40 | one iteration: `correct_def` is the term's definition; the choices have `min(3, n - 1) + 1` entries and include it; every other choice is the definition of a different term; the verdict grades the answer against these choices |
| `QuizEngine.CorrectCount` | terminal-quiz/terminal_quiz/engine.py:34-36 | the number of correct verdicts never exceeds the number of questions asked |
| `QuizEngine.Play` | terminal-quiz/terminal_quiz/engine.py:22-40 | after k iterations, k questions were asked and `score` is the number of correct verdicts among them |
| `QuizEngine.PlayAsked` | terminal-quiz/terminal_quiz/engine.py:22-40 | question j of the first k iterations is iteration j (the j-th term of the drawn order, with its own draw and answer): later iterations only append |
| `QuizEngine.AskAll` | terminal-quiz/terminal_quiz/engine.py:22-42 | the question loop stops early exactly when the input runs out before the last term; its score and questions are those of all iterations, or of as many as there were input lines |
| `QuizEngine.RunQuiz` | terminal-quiz/terminal_quiz/engine.py:6-42 | the session computes `Session`; a missing file, and only a missing file, gives `NotFound`; a completed run asks `questions` questions and scores at most `questions` |
| `QuizEngine.AskedInOrder` | terminal-quiz/terminal_quiz/engine.py:22 | a full run asks the terms in the order drawn by `random.sample(words, questions)` |
| `QuizEngine.CompletedCount` | terminal-quiz/terminal_quiz/engine.py:16-42 | a completed session asks exactly as many questions as there are non-title keys, and `0 <= score <= questions` |
| `QuizEngine.EachTermOnce` | terminal-quiz/terminal_quiz/engine.py:16-22 | a completed session asks every non-title key exactly once |
| `QuizEngine.OnlyTerms` | terminal-quiz/terminal_quiz/engine.py:16-22 | every question of a completed session is about a non-title key |
| `QuizEngine.QuestionShape` | terminal-quiz/terminal_quiz/engine.py:22-26 | every asked question is about a non-title key; it shows `min(3, n - 1) + 1` choices, including that key's definition; every other choice is the definition of another non-title key |
| `QuizEngine.ScoreStep` | terminal-quiz/terminal_quiz/engine.py:32-40 | each question raises the score by exactly 1 iff the answer is an integer in `[1 - len, len]` whose Python index selects `correct_def`; otherwise the score is unchanged; the earlier questions stay as they were |
| `QuizEngine.AnswerSelects` | terminal-quiz/terminal_quiz/engine.py:33-40 | answer `p + 1` selects position p, and so does `p + 1 - len`; `0` selects the last choice; `len + 1` and `-len` are invalid |
| `QuizEngine.Answerable` | terminal-quiz/terminal_quiz/engine.py:34-36 | every question has a correct answer between 1 and `len(choices)` |
| `QuizEngine.FullScoreIff` | terminal-quiz/terminal_quiz/engine.py:34-36 | the number of correct verdicts equals the number of questions iff every verdict is correct |
| `QuizEngine.PerfectScore` | terminal-quiz/terminal_quiz/engine.py:22-42 | a completed session scores `questions` out of `questions` iff every answer was correct |
| `Sampling.DrawBound` | terminal-quiz/terminal_quiz/engine.py:25 | a sample of distinct positions below n has at most n entries |
| `Sampling.PickMultiset` | terminal-quiz/terminal_quiz/engine.py:22-26 | elements sampled at distinct positions form a sub-multiset of the population; a full-length draw (the order of questions, a shuffle) is a permutation of the population |
| `Sampling.DistinctOnce` | terminal-quiz/terminal_quiz/engine.py:22 | in a list without duplicates each member occurs exactly once |
| `Sampling.DrawnOnce` | terminal-quiz/terminal_quiz/engine.py:22 | a full-length draw from a list without duplicates picks each member exactly once |
| `PyStr.Strip` | udacity/future-aws-ai-engineer/ai-rag-doc-query-system/bedrock_utils.py:249 | `strip()` returns the part of the string that only white space surrounds, and that part neither starts nor ends with white space |
| `PyStr.StripFramed` | udacity/future-aws-ai-engineer/ai-rag-doc-query-system/bedrock_utils.py:249 | `strip()` returns the framed part whatever way the framing is found, because that part is unique |
| `PyStr.StripLowerCommute` | udacity/future-aws-ai-engineer/ai-rag-doc-query-system/bedrock_utils.py:110 | lower-casing then stripping gives the same as stripping then lower-casing |
| `PyStr.MatchesIgnoringCaseAndPadding` | udacity/future-aws-ai-engineer/ai-rag-doc-query-system/bedrock_utils.py:257 | a stripped, lower-cased string equals w iff the string is white space, then w in any letter case, then white space |
| `PyStr.Lower` | udacity/future-aws-ai-engineer/ai-rag-doc-query-system/bedrock_utils.py:110 | `lower()` keeps the length and lower-cases each character; what that means for the comparisons is stated by `PyStr.StripLowerCommute` and `PyStr.MatchesIgnoringCaseAndPadding` |
| `PyStr.JoinPart` | udacity/future-aws-ai-engineer/ai-rag-doc-query-system/bedrock_utils.py:218 | `sep.join(parts)` holds each part at its offset |
| `PyStr.JoinSep` | udacity/future-aws-ai-engineer/ai-rag-doc-query-system/bedrock_utils.py:218 | in `sep.join(parts)` each part but the last is followed by `sep`, and the next part begins right after it |
| `PyStr.JoinEnd` | udacity/future-aws-ai-engineer/ai-rag-doc-query-system/bedrock_utils.py:218 | the last part ends `sep.join(parts)` |
| `PyStr.Decimal` | udacity/future-aws-ai-engineer/ai-rag-doc-query-system/bedrock_utils.py:217 | `str(i)` is a non-empty string of decimal digits without a leading zero |
| `PyStr.DecimalRoundTrip` | udacity/future-aws-ai-engineer/ai-rag-doc-query-system/bedrock_utils.py:217 | `str(i)` reads back as `i`, so the chunk numbers are distinct |
| `BedrockUtils.ChunkText` | udacity/future-aws-ai-engineer/ai-rag-doc-query-system/bedrock_utils.py:208-213 | a dict content gives its `text` value, or `None` without one; a missing content gives `None` too; a non-empty list gives the first element's `text`, or `""`; an empty list or other empty value gives `""` |
| `BedrockUtils.Source` | udacity/future-aws-ai-engineer/ai-rag-doc-query-system/bedrock_utils.py:214-216 | the source is the metadata's source URI; it is `unknown source` when the metadata or the key is missing |
| `BedrockUtils.Chunks` | udacity/future-aws-ai-engineer/ai-rag-doc-query-system/bedrock_utils.py:205-217 | there is one chunk per retrieval result |
| `BedrockUtils.BuildRagPrompt` | udacity/future-aws-ai-engineer/ai-rag-doc-query-system/bedrock_utils.py:193-232 | the loop builds the template filled with the question and the context of the results; with no results the context is the fixed sentence |
| `BedrockUtils.PromptLayout` | udacity/future-aws-ai-engineer/ai-rag-doc-query-system/bedrock_utils.py:220-231 | the prompt is the fixed head ending in `Context:\n`, the context, `\n\nQuestion:\n`, the question, and `\n\nAnswer:` at the end, each at its computed position |
| `BedrockUtils.ChunkLabel` | udacity/future-aws-ai-engineer/ai-rag-doc-query-system/bedrock_utils.py:206-217 | entry i (from 0) reads `Chunk <i+1> (source: <source>):\n<text>`, and its number reads back as i + 1 |
| `BedrockUtils.ContextHoldsChunk` | udacity/future-aws-ai-engineer/ai-rag-doc-query-system/bedrock_utils.py:205-218 | for results, the context holds entry i at its offset, so the n entries appear in input order |
| `BedrockUtils.ContextSeparatesChunks` | udacity/future-aws-ai-engineer/ai-rag-doc-query-system/bedrock_utils.py:218 | a blank line follows every entry but the last, and the next entry begins right after it |
| `BedrockUtils.ContextEndsWithLastChunk` | udacity/future-aws-ai-engineer/ai-rag-doc-query-system/bedrock_utils.py:218 | the last entry ends the context |
| `BedrockUtils.AcceptsExactly` | udacity/future-aws-ai-engineer/ai-rag-doc-query-system/bedrock_utils.py:110 | the reply is accepted iff, apart from surrounding white space, it reads `category e` in some letter case |
| `BedrockUtils.ValidPrompt` | udacity/future-aws-ai-engineer/ai-rag-doc-query-system/bedrock_utils.py:110-115 | a `ClientError` rejects the request (fail closed); otherwise the request passes iff the reply is accepted |
| `BedrockUtils.SkipsBlank` | udacity/future-aws-ai-engineer/ai-rag-doc-query-system/bedrock_utils.py:249-255 | a line is skipped iff it is all white space |
| `BedrockUtils.LeavesOnExit` | udacity/future-aws-ai-engineer/ai-rag-doc-query-system/bedrock_utils.py:249-259 | a line ends the loop iff, apart from white space, it reads `exit` or `quit` in any case |
| `BedrockUtils.ClassifiesStripped` | udacity/future-aws-ai-engineer/ai-rag-doc-query-system/bedrock_utils.py:249-259 | any other line is classified in its stripped form, which is non-empty, neither starts nor ends with white space, and is not an exit word |
| `BedrockUtils.Decisions` | udacity/future-aws-ai-engineer/ai-rag-doc-query-system/bedrock_utils.py:247-259 | there is one decision per input line, in input order; what each decision is, is stated by `BedrockUtils.SkipsBlank`, `BedrockUtils.LeavesOnExit` and `BedrockUtils.ClassifiesStripped` |
| `BedrockUtils.ChatLoop` | udacity/future-aws-ai-engineer/ai-rag-doc-query-system/bedrock_utils.py:235-259 | an unconfigured model or knowledge base reads nothing; otherwise the loop forwards exactly the prompts the per-line decisions give, up to the first exit request or the end of input |
| `BedrockUtils.ForwardedComesFrom` | udacity/future-aws-ai-engineer/ai-rag-doc-query-system/bedrock_utils.py:254-259 | every forwarded prompt is the classify decision of some input line |
| `BedrockUtils.ForwardedClean` | udacity/future-aws-ai-engineer/ai-rag-doc-query-system/bedrock_utils.py:249-259 | every prompt sent on to classification is an input line without its surrounding white space; it is non-empty and is neither `exit` nor `quit` in any case |
| `BedrockUtils.StopsAtExit` | udacity/future-aws-ai-engineer/ai-rag-doc-query-system/bedrock_utils.py:257-259 | no line after an exit request reaches the classifier |

## Left out

- Reading the quiz file. The existence check, `open` and `json.load` are not modelled.
  The model takes the loaded object, or its absence, as a parameter. A JSON value that
  is not a string, and a parse error, are not modelled.
- Console output: the banner, the numbered choices, the feedback lines and the final
  score line, with their emoji. The model returns the title, the score, the question
  count and every question asked, which is what those lines show.
- Python's `random` module. The order of questions, each distractor sample and each
  shuffle are parameters, required to be distinct positions. A full-length draw is a
  permutation. Uniformity and seeding are not modelled.
- `random.shuffle` rearranges `choices` in place. The model describes the shuffled
  list by the permutation applied to it, not by the swaps.
- `int(input(...))`: the parsing of the line is not modelled. Each answer is given
  already parsed, with `None` standing for the `ValueError`. The end of input is
  modelled (`InputClosed`). A keyboard interrupt is not.
- All Bedrock network calls: `invoke_model` in `valid_prompt` and `generate_response`,
  and `retrieve` in `query_knowledge_base`. This includes the request payloads, the
  classifier prompt text and the float `temperature` and `top_p` parameters. The
  classifier's reply (or `ClientError`) is a parameter. `main` is modelled up to the
  point where a prompt is handed to the classifier.
- `PyStr.Lower` changes ASCII letters only, not the full Unicode `str.lower()`.
  `PyStr.Strip` uses Python's full `str.isspace()` set.
- Retrieval results whose `content` is a non-empty value that is neither a dict nor
  a list (it raises `AttributeError` or `TypeError` in the source). List elements that are not dicts are not
  modelled either, and neither are explicit JSON `null` texts inside a list.
- A retrieval result whose `metadata` is present but `null`: `.get` on it raises
  `AttributeError` in the source, and `Metadata` cannot express it.
- A source URI that is present but `null`: the source prints it as `None`, while
  `Metadata(sourceUri: Option<string>)` reads `None` as a missing key and gives
  `unknown source`.
- `app.py` (the Streamlit front end), `scripts/connect_and_test.py` (database and
  secrets connection), `terminal-quiz/setup.py` and the two-line quiz launcher are
  not part of this model.
