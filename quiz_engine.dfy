/**
 * The terminal vocabulary quiz (`run_quiz` in terminal_quiz/engine.py).
 *
 * A quiz file maps terms to definitions, with an optional reserved title key.
 * A session asks every term once, in a random order; each question offers the
 * correct definition and up to three distractor definitions of other terms, in
 * a random order; the user answers with a 1-based number, and the score counts
 * the correct answers.
 *
 * The file system, the JSON parser, the console and Python's `random` module are
 * outside the model: the loaded file, whether it exists, every random draw (see
 * module Sampling) and every parsed input line are parameters.
 */
module QuizEngine {
  import opened Wrappers
  import opened Sampling

  /** The reserved key that holds the display title. */
  const TitleKey: string := "__title__"
  /** The title shown when the file has none. */
  const DefaultTitle: string := "Vocabulary"
  /** At most this many wrong definitions are offered per question. */
  const MaxDistractors: nat := 3

  /**
   * A quiz file after `json.load`: the keys of the JSON object in file order
   * (Python dicts keep insertion order) and the string each key maps to.
   */
  datatype QuizFile = QuizFile(keys: seq<string>, entries: map<string, string>)

  /** The key order lists every key of the mapping exactly once. */
  predicate WellFormed(q: QuizFile) {
    && Distinct(q.keys)
    && (forall k :: k in q.keys ==> k in q.entries)
    && (forall k :: k in q.entries ==> k in q.keys)
  }

  function Min(a: nat, b: nat): nat {
    if a <= b then a else b
  }

  /** The title in the banner: the reserved key's value, "Vocabulary" without it. */
  function Title(q: QuizFile): (t: string)
    ensures TitleKey in q.entries ==> t == q.entries[TitleKey]
    ensures TitleKey !in q.entries ==> t == DefaultTitle
  {
    if TitleKey in q.entries then q.entries[TitleKey] else DefaultTitle
  }

  /** `words`: the keys other than the title key, in file order. */
  function Terms(keys: seq<string>): (ws: seq<string>)
    ensures forall w :: w in ws <==> w in keys && w != TitleKey
    ensures Distinct(keys) ==> Distinct(ws)
  {
    if keys == [] then []
    else
      assert Distinct(keys) ==> Distinct(keys[1..]) && keys[0] !in keys[1..];
      if keys[0] == TitleKey then Terms(keys[1..])
      else [keys[0]] + Terms(keys[1..])
  }

  /** The number of questions is the number of non-title keys of the mapping. */
  lemma TermCount(q: QuizFile)
    requires WellFormed(q)
    ensures Distinct(Terms(q.keys))
    ensures |Terms(q.keys)| == |q.entries.Keys - {TitleKey}|
  {
    var ws := Terms(q.keys);
    DistinctCard(ws);
    assert (set w | w in ws) == q.entries.Keys - {TitleKey};
  }

  /** `all_defs`: the definitions of every term except `word`, in term order. */
  function OtherDefs(entries: map<string, string>, words: seq<string>, word: string): (defs: seq<string>)
    requires forall w :: w in words ==> w in entries
    ensures |defs| + multiset(words)[word] == |words|
    ensures forall d :: d in defs <==> exists w :: w in words && w != word && entries[w] == d
  {
    if words == [] then []
    else
      assert words == [words[0]] + words[1..];
      var rest := OtherDefs(entries, words[1..], word);
      if words[0] == word then rest else [entries[words[0]]] + rest
  }

  /**
   * The injected randomness of one question: the positions in `all_defs` that
   * `random.sample` picks as distractors, and the permutation `random.shuffle`
   * applies to the candidate list.
   */
  datatype Draw = Draw(distractors: seq<nat>, shuffle: seq<nat>)

  /** A draw fits a question whose term has `others` other terms. */
  predicate DrawFits(d: Draw, others: nat) {
    var k := Min(MaxDistractors, others);
    IsDraw(d.distractors, k, others) && IsDraw(d.shuffle, k + 1, k + 1)
  }

  /** `choices`: the sampled distractors plus the correct definition, shuffled. */
  function Choices(allDefs: seq<string>, correct: string, d: Draw): (choices: seq<string>)
    requires DrawFits(d, |allDefs|)
    ensures |choices| == Min(MaxDistractors, |allDefs|) + 1
  {
    Pick(Pick(allDefs, d.distractors) + [correct], d.shuffle)
  }

  /**
   * The choices are the correct definition and `min(3, len(all_defs))` distractors
   * sampled without replacement from `all_defs`, in shuffled order.
   */
  lemma ChoicesShape(allDefs: seq<string>, correct: string, d: Draw)
    requires DrawFits(d, |allDefs|)
    ensures var choices := Choices(allDefs, correct, d);
      && multiset(choices) == multiset(Pick(allDefs, d.distractors)) + multiset{correct}
      && multiset(Pick(allDefs, d.distractors)) <= multiset(allDefs)
      && correct in choices
      && forall c :: c in choices && c != correct ==> c in allDefs
  {
    var distractors := Pick(allDefs, d.distractors);
    var candidates := distractors + [correct];
    PickMultiset(allDefs, d.distractors);
    PickMultiset(candidates, d.shuffle);
    var choices := Choices(allDefs, correct, d);
    assert correct in multiset(choices);
    assert forall c :: c in choices && c != correct ==> c in multiset(distractors);
  }

  /** How one answer was scored. */
  datatype Verdict =
    | Correct   // the chosen definition is the correct one
    | Wrong     // a definition was chosen, but not the correct one
    | Invalid   // `int(...)` raised ValueError, or the index raised IndexError

  /**
   * The position that Python's `xs[i]` reads in a list of length `n`, or None
   * where it raises IndexError: a negative index counts from the end.
   */
  function PyIndex(n: nat, i: int): (p: Option<nat>)
    ensures p.Some? <==> -(n as int) <= i < n
    ensures p.Some? ==> p.value < n && (p.value == i || p.value == n + i)
  {
    if 0 <= i < n then Some(i)
    else if -(n as int) <= i < 0 then Some(n + i)
    else None
  }

  /**
   * The verdict on one answer: `choices[answer - 1] == correct_def`, with None
   * standing for input that `int(...)` rejects.
   */
  function Grade(choices: seq<string>, correct: string, answer: Option<int>): (v: Verdict)
    ensures v == Invalid <==> answer.None? || !(-|choices| as int <= answer.value - 1 < |choices|)
    ensures v != Invalid ==> (v == Correct <==> choices[PyIndex(|choices|, answer.value - 1).value] == correct)
  {
    match answer
    case None => Invalid
    case Some(a) =>
      match PyIndex(|choices|, a - 1)
      case None => Invalid
      case Some(k) => if choices[k] == correct then Correct else Wrong
  }

  /** One asked question: the term, the choices shown, the correct definition, the verdict. */
  datatype Question = Question(term: string, choices: seq<string>, correct: string, verdict: Verdict)

  /** One iteration of the question loop for the term `word`. */
  function Ask(q: QuizFile, words: seq<string>, word: string, d: Draw, answer: Option<int>): (qn: Question)
    requires forall w :: w in words ==> w in q.entries
    requires Distinct(words) && word in words
    requires DrawFits(d, |words| - 1)
  {
    DistinctOnce(words, word);
    var correct := q.entries[word];
    var choices := Choices(OtherDefs(q.entries, words, word), correct, d);
    Question(word, choices, correct, Grade(choices, correct, answer))
  }

  /**
   * One question: `correct_def` is the term's definition; the choices are
   * `min(3, n - 1) + 1` definitions including it, every other one the definition
   * of a different term; the verdict grades the answer against these choices.
   */
  lemma AskShape(q: QuizFile, words: seq<string>, word: string, d: Draw, answer: Option<int>)
    requires forall w :: w in words ==> w in q.entries
    requires Distinct(words) && word in words
    requires DrawFits(d, |words| - 1)
    ensures var qn := Ask(q, words, word, d, answer);
      && qn.term == word && qn.correct == q.entries[word]
      && |qn.choices| == Min(MaxDistractors, |words| - 1) + 1
      && qn.correct in qn.choices
      && (forall c :: c in qn.choices && c != qn.correct ==>
            exists w :: w in words && w != word && q.entries[w] == c)
      && qn.verdict == Grade(qn.choices, qn.correct, answer)
  {
    DistinctOnce(words, word);
    var allDefs := OtherDefs(q.entries, words, word);
    ChoicesShape(allDefs, q.entries[word], d);
  }

  /** The number of questions answered correctly. */
  function CorrectCount(asked: seq<Question>): (n: nat)
    ensures n <= |asked|
  {
    if asked == [] then 0
    else CorrectCount(asked[..|asked| - 1]) + (if asked[|asked| - 1].verdict == Correct then 1 else 0)
  }

  /** The running state of the question loop: `score` and the questions asked so far. */
  datatype Tally = Tally(score: nat, asked: seq<Question>)

  /** What the injected randomness must be for a quiz of `n` terms. */
  predicate RandomnessFits(n: nat, order: seq<nat>, draws: seq<Draw>) {
    && IsDraw(order, n, n)                        // random.sample(words, questions)
    && |draws| == n
    && forall i :: 0 <= i < |draws| ==> DrawFits(draws[i], n - 1)
  }

  /** A loaded quiz file together with the random draws of one session on it. */
  datatype Plan = Plan(q: QuizFile, order: seq<nat>, draws: seq<Draw>)

  /** The draws are ones `random.sample` and `random.shuffle` can make for this file. */
  predicate Fits(p: Plan) {
    WellFormed(p.q) && RandomnessFits(|Terms(p.q.keys)|, p.order, p.draws)
  }

  /** The plans a session can run on. */
  type Setup = p: Plan | Fits(p) witness Plan(QuizFile([], map[]), [], [])

  /** Iteration `j` of the question loop: the j-th drawn term, its draw and its answer. */
  function AskAt(p: Setup, answers: seq<Option<int>>, j: nat): (qn: Question)
    requires j < |p.order| && j < |answers|
  {
    var words := Terms(p.q.keys);
    assert Distinct(words);
    assert p.order[j] < |words| && DrawFits(p.draws[j], |words| - 1);
    Ask(p.q, words, words[p.order[j]], p.draws[j], answers[j])
  }

  /** The state of the question loop after its first `k` iterations. */
  function Play(p: Setup, answers: seq<Option<int>>, k: nat): (t: Tally)
    requires k <= |p.order| && k <= |answers|
    ensures |t.asked| == k
    ensures t.score == CorrectCount(t.asked)
    decreases k
  {
    if k == 0 then Tally(0, [])
    else
      var t := Play(p, answers, k - 1);
      var qn := AskAt(p, answers, k - 1);
      assert (t.asked + [qn])[..k - 1] == t.asked;
      Tally(if qn.verdict == Correct then t.score + 1 else t.score, t.asked + [qn])
  }

  /** One more iteration appends question k, counting it if it was answered correctly. */
  lemma PlayNext(p: Setup, answers: seq<Option<int>>, k: nat)
    requires k < |p.order| && k < |answers|
    ensures var t := Play(p, answers, k);
      var qn := AskAt(p, answers, k);
      Play(p, answers, k + 1) == Tally(if qn.verdict == Correct then t.score + 1 else t.score, t.asked + [qn])
  {
  }

  /** Question j of the loop is iteration j: later iterations only append. */
  lemma {:induction false} PlayAsked(p: Setup, answers: seq<Option<int>>, k: nat, j: nat)
    requires k <= |p.order| && k <= |answers| && j < k
    ensures Play(p, answers, k).asked[j] == AskAt(p, answers, j)
    decreases k
  {
    var before := Play(p, answers, k - 1).asked;
    var qn := AskAt(p, answers, k - 1);
    PlayNext(p, answers, k - 1);
    if j < k - 1 {
      PlayAsked(p, answers, k - 1, j);
      assert (before + [qn])[j] == before[j];
    }
  }

  /** How `run_quiz` ends. */
  datatype Outcome =
    | NotFound                                              // the path does not exist: nothing is asked
    | Completed(title: string, questions: nat, tally: Tally)   // every question was asked and scored
    | InputClosed(title: string, questions: nat, tally: Tally) // `input()` hit end of file: EOFError escapes

  /** The whole session; `plan` is None when the path does not exist. */
  function Session(plan: Option<Setup>, answers: seq<Option<int>>): (o: Outcome)
  {
    match plan
    case None => NotFound
    case Some(p) =>
      var n := |Terms(p.q.keys)|;
      if n <= |answers| then Completed(Title(p.q), n, Play(p, answers, n))
      else InputClosed(Title(p.q), n, Play(p, answers, |answers|))
  }

  /**
   * The question loop of `run_quiz`: ask the drawn terms one by one, grading
   * each answer.  `closed` reports that input ran out before the last question.
   */
  method AskAll(p: Setup, answers: seq<Option<int>>) returns (t: Tally, closed: bool)
    ensures closed <==> |answers| < |p.order|
    ensures t == Play(p, answers, if closed then |answers| else |p.order|)
  {
    var score := 0;
    var asked: seq<Question> := [];
    var i := 0;
    while i < |p.order|
      invariant 0 <= i <= |p.order| && i <= |answers|
      invariant Tally(score, asked) == Play(p, answers, i)
    {
      if i == |answers| {
        return Tally(score, asked), true;
      }
      var qn := AskAt(p, answers, i);
      PlayNext(p, answers, i);
      if qn.verdict == Correct {
        score := score + 1;
      }
      asked := asked + [qn];
      i := i + 1;
    }
    return Tally(score, asked), false;
  }

  /**
   * `run_quiz`: ask every term in the drawn order, grade each answer, keep the
   * score.  `answers[i]` is the i-th input line as parsed by `int(...)`.
   */
  method RunQuiz(plan: Option<Setup>, answers: seq<Option<int>>) returns (o: Outcome)
    ensures o == Session(plan, answers)
    ensures o.NotFound? <==> plan.None?
    ensures o.Completed? ==> o.tally.score <= o.questions == |o.tally.asked|
  {
    if plan.None? {
      return NotFound;
    }
    var p := plan.value;
    var title := Title(p.q);
    var questions := |Terms(p.q.keys)|;
    var t, closed := AskAll(p, answers);
    if closed {
      return InputClosed(title, questions, t);
    }
    return Completed(title, questions, t);
  }

  // ---------------------------------------------------------------------------
  // Properties of a session
  // ---------------------------------------------------------------------------

  /** The terms in the order they were asked. */
  function AskedTerms(asked: seq<Question>): (ts: seq<string>)
    ensures |ts| == |asked| && forall j :: 0 <= j < |asked| ==> ts[j] == asked[j].term
  {
    seq(|asked|, j requires 0 <= j < |asked| => asked[j].term)
  }

  /** A run of all `|order|` iterations asks the terms in the drawn order. */
  lemma AskedInOrder(p: Setup, answers: seq<Option<int>>)
    requires |p.order| <= |answers|
    ensures AskedTerms(Play(p, answers, |p.order|).asked) == Pick(Terms(p.q.keys), p.order)
  {
    var words := Terms(p.q.keys);
    var asked := Play(p, answers, |p.order|).asked;
    forall j | 0 <= j < |p.order|
      ensures asked[j].term == words[p.order[j]]
    {
      PlayAsked(p, answers, |p.order|, j);
    }
  }

  /**
   * A completed session asks as many questions as there are non-title keys, and
   * its score lies between 0 and that number.
   */
  lemma CompletedCount(p: Setup, answers: seq<Option<int>>)
    requires Session(Some(p), answers).Completed?
    ensures var o := Session(Some(p), answers);
      && o.questions == |p.q.entries.Keys - {TitleKey}| == |o.tally.asked|
      && 0 <= o.tally.score <= o.questions
  {
    TermCount(p.q);
  }

  /** A completed session asks every term exactly once. */
  lemma EachTermOnce(p: Setup, answers: seq<Option<int>>, w: string)
    requires Session(Some(p), answers).Completed?
    requires w in p.q.entries && w != TitleKey
    ensures multiset(AskedTerms(Session(Some(p), answers).tally.asked))[w] == 1
  {
    var words := Terms(p.q.keys);
    AskedInOrder(p, answers);
    DrawnOnce(words, p.order, w);
  }

  /** A completed session asks nothing but terms: every question is about a non-title key. */
  lemma OnlyTerms(p: Setup, answers: seq<Option<int>>, j: nat)
    requires Session(Some(p), answers).Completed?
    requires j < |Session(Some(p), answers).tally.asked|
    ensures var term := Session(Some(p), answers).tally.asked[j].term;
      term in p.q.entries && term != TitleKey
  {
    var words := Terms(p.q.keys);
    AskedInOrder(p, answers);
    assert Pick(words, p.order)[j] in words;
  }

  /**
   * Every asked question shows `min(3, n - 1) + 1` choices, among them the
   * term's own definition; every other choice is the definition of another term.
   */
  lemma QuestionShape(p: Setup, answers: seq<Option<int>>, k: nat, j: nat)
    requires k <= |p.order| && k <= |answers| && j < k
    ensures var qn := Play(p, answers, k).asked[j];
      && qn.term in p.q.entries && qn.term != TitleKey
      && qn.correct == p.q.entries[qn.term]
      && |qn.choices| == Min(MaxDistractors, |p.q.entries.Keys - {TitleKey}| - 1) + 1
      && qn.correct in qn.choices
      && (forall c :: c in qn.choices && c != qn.correct ==>
            exists w :: w in p.q.entries && w != TitleKey && w != qn.term && p.q.entries[w] == c)
  {
    TermCount(p.q);
    var words := Terms(p.q.keys);
    var qn := Play(p, answers, k).asked[j];
    PlayAsked(p, answers, k, j);
    assert qn == Ask(p.q, words, words[p.order[j]], p.draws[j], answers[j]);
    AskShape(p.q, words, words[p.order[j]], p.draws[j], answers[j]);
  }

  /**
   * The increment rule: question k adds one to the score exactly when its
   * answer is a number whose Python index falls inside the choice list and
   * selects the correct definition; anything else leaves the score as it was
   * and the session goes on to the next question.
   */
  lemma ScoreStep(p: Setup, answers: seq<Option<int>>, k: nat)
    requires k < |p.order| && k < |answers|
    ensures var before := Play(p, answers, k);
      var after := Play(p, answers, k + 1);
      var qn := after.asked[k];
      && after.asked[..k] == before.asked
      && (after.score == before.score + 1 <==>
            && answers[k].Some?
            && 1 - |qn.choices| <= answers[k].value <= |qn.choices|
            && qn.choices[PyIndex(|qn.choices|, answers[k].value - 1).value] == qn.correct)
      && (after.score == before.score || after.score == before.score + 1)
  {
    var before := Play(p, answers, k);
    PlayNext(p, answers, k);
    assert (before.asked + [AskAt(p, answers, k)])[..k] == before.asked;
  }

  /**
   * Python's indexing makes the valid answers run from `1 - len(choices)` to
   * `len(choices)`: the answer 0 reads the last choice, and a choice at
   * position p is selected both by p + 1 and by p + 1 - len(choices).
   */
  lemma AnswerSelects(choices: seq<string>, correct: string, p: nat)
    requires p < |choices|
    ensures Grade(choices, correct, Some(p + 1)) == (if choices[p] == correct then Correct else Wrong)
    ensures Grade(choices, correct, Some(p + 1 - |choices|)) == Grade(choices, correct, Some(p + 1))
    ensures Grade(choices, correct, Some(0)) == (if choices[|choices| - 1] == correct then Correct else Wrong)
    ensures Grade(choices, correct, Some(|choices| + 1)) == Invalid
    ensures Grade(choices, correct, Some(-|choices|)) == Invalid
  {
  }

  /** Every question can be answered correctly: by the position of its definition, plus one. */
  lemma Answerable(choices: seq<string>, correct: string)
    requires correct in choices
    ensures exists a :: 1 <= a <= |choices| && Grade(choices, correct, Some(a)) == Correct
  {
    var p :| 0 <= p < |choices| && choices[p] == correct;
    AnswerSelects(choices, correct, p);
  }

  /** Only an all-correct run of answers reaches the full score. */
  lemma {:induction false} FullScoreIff(asked: seq<Question>)
    ensures CorrectCount(asked) == |asked| <==> forall j :: 0 <= j < |asked| ==> asked[j].verdict == Correct
  {
    if asked != [] {
      var init := asked[..|asked| - 1];
      FullScoreIff(init);
      assert forall j :: 0 <= j < |init| ==> init[j] == asked[j];
    }
  }

  /**
   * A completed session scores `questions` out of `questions` exactly when
   * every answer selected the correct definition.
   */
  lemma PerfectScore(p: Setup, answers: seq<Option<int>>)
    requires Session(Some(p), answers).Completed?
    ensures var o := Session(Some(p), answers);
      o.tally.score == o.questions <==> forall j :: 0 <= j < o.questions ==> o.tally.asked[j].verdict == Correct
  {
    FullScoreIff(Session(Some(p), answers).tally.asked);
  }
}
