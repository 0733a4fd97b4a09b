/** The practice engine of `ExamSoftware`: the session state (mode, question
    list, index, answers, wrong list, exam results) and the stored tables it
    reads and writes, kept as in-memory maps keyed like the tables' UNIQUE
    constraints. */
module Engine {
  import opened Questions
  import opened Ordering
  import opened Numbering
  import opened Scoring
  import opened WrongSet
  import opened ExamSampler

  /** The stored tables the engine uses.
      - progress: (bank, mode) to the answers by question id, the `progress`
        table with UNIQUE(bank_id, mode, question_id);
      - orders: (bank, mode) to question ids by position, the
        `question_orders` table with UNIQUE(bank_id, mode, position);
      - positions: the `last_position_{mode}_{bank}` configuration entries;
      - wrongRows: the `wrong_questions` table in insertion order. */
  datatype Database = Database(
    progress: map<(int, Mode), map<int, string>>,
    orders: map<(int, Mode), seq<int>>,
    positions: map<(int, Mode), int>,
    wrongRows: seq<WrongRow>)

  /** The per-question entry of the exam results. */
  datatype QuestionResult = QuestionResult(
    userAnswer: string, correctAnswer: string, isCorrect: bool,
    score: real, totalScore: real, number: int)

  /** `exam_results`: empty before any exam, else the header and the entries
      keyed by question id. */
  datatype ExamResults =
    | NoResults
    | Results(total: int, correct: int, wrong: int, scores: real, totalScores: real,
              perQuestion: map<int, QuestionResult>)

  /** Outcome of revealing the analysis of a question. */
  datatype Reveal = NoAnswerSelected | Revealed(isCorrect: bool)

  /** Outcome of the "next question" button. */
  datatype NextOutcome = Moved | PracticeFinished | ExamSubmission(unanswered: seq<int>, submitted: bool)

  /** The text recorded as the answer of an unanswered exam question. */
  const NotAnswered := "未回答"

  predicate NonEmptyAnswers(a: map<int, string>)
  {
    forall k :: k in a ==> a[k] != ""
  }

  /** The modes whose answer map is loaded from and saved to the progress table. */
  predicate Mirrored(m: Mode)
  {
    m == Sequence || m == Random || m == Wrong
  }

  /** The answers stored for (bank, mode): `SELECT question_id, user_answer
      FROM progress WHERE bank_id = ? AND mode = ?`. */
  function AnswersIn(progress: map<(int, Mode), map<int, string>>, key: (int, Mode)): map<int, string>
  {
    if key in progress then progress[key] else map[]
  }

  /** The answer recorded for question id, or "" when it has none. */
  function AnswerOrEmpty(a: map<int, string>, id: int): string
  {
    if id in a then a[id] else ""
  }

  /** Recording an answer: an empty answer is never stored; a non-empty one
      replaces the entry for its question and touches no other entry. */
  function RecordAnswer(answers: map<int, string>, qid: int, a: string): (r: map<int, string>)
    ensures a == "" ==> r == answers
    ensures a != "" ==> qid in r && r[qid] == a
    ensures forall k :: k != qid ==> (k in r <==> k in answers) && (k in answers ==> r[k] == answers[k])
    ensures NonEmptyAnswers(answers) ==> NonEmptyAnswers(r)
  {
    if a == "" then answers else answers[qid := a]
  }

  /** The `INSERT OR REPLACE INTO progress` of a non-empty answer. */
  function StoreAnswer(progress: map<(int, Mode), map<int, string>>, key: (int, Mode), qid: int, a: string)
    : map<(int, Mode), map<int, string>>
  {
    if a == "" then progress else progress[key := RecordAnswer(AnswersIn(progress, key), qid, a)]
  }

  /** The saved order for (bank, mode), empty when none is stored. */
  function SavedOrder(orders: map<(int, Mode), seq<int>>, b: int, m: Mode): seq<int>
  {
    if (b, m) in orders then orders[(b, m)] else []
  }

  /** save_current_position: records the index under the current mode; does
      nothing while no mode is set. */
  function WithPosition(db: Database, b: int, m: Mode, index: int): Database
  {
    if m == NoMode then db else db.(positions := db.positions[(b, m) := index])
  }

  /** A saved position is used only when it is a valid index of the list.
      The result is always an index of the list, or 0 for an empty one: the
      bound the index clause of `Consistent` needs after a restore. */
  function Restored(positions: map<(int, Mode), int>, key: (int, Mode), n: int): (i: int)
    ensures 0 <= i && (i < n || i == 0)
    ensures key in positions && 0 <= positions[key] < n ==> i == positions[key]
    ensures !(key in positions && 0 <= positions[key] < n) ==> i == 0
  {
    if key in positions && 0 <= positions[key] < n then positions[key] else 0
  }

  /** The questions of the wrong list, as practised in Wrong mode: a list
      without a repeated question gives questions with distinct ids. */
  function QuestionsOf(items: seq<WrongItem>): (qs: seq<Question>)
    ensures DistinctQuestions(items) ==> UniqueIds(qs)
  {
    seq(|items|, i requires 0 <= i < |items| => items[i].question)
  }

  /** The result entry of one exam question. */
  function ResultFor(qs: seq<Question>, answers: map<int, string>, q: Question): QuestionResult
    requires q in qs
  {
    var ok := IsCorrect(q, answers);
    QuestionResult(
      if q.id in answers then answers[q.id] else NotAnswered,
      q.answer, ok, if ok then q.score else 0.0, q.score,
      DisplayNumber(qs, IndexOf(qs, q)))
  }

  /** The result entry of every exam question, in exam order. */
  function ResultsOf(qs: seq<Question>, answers: map<int, string>): (r: seq<QuestionResult>)
    ensures |r| == |qs| && forall k {:trigger r[k]} :: 0 <= k < |qs| ==> r[k] == ResultFor(qs, answers, qs[k])
  {
    seq(|qs|, k requires 0 <= k < |qs| => ResultFor(qs, answers, qs[k]))
  }

  /** The map after writing entry k under the id of question k, for each of
      the first n questions in turn, on top of base. */
  function Written<V>(base: map<int, V>, qs: seq<Question>, vals: seq<V>, n: nat): map<int, V>
    requires n <= |qs| && n <= |vals|
  {
    if n == 0 then base else Written(base, qs, vals, n - 1)[qs[n - 1].id := vals[n - 1]]
  }

  /** With distinct ids, no later write overwrites an earlier one. */
  lemma {:induction false} WrittenValues<V>(base: map<int, V>, qs: seq<Question>, vals: seq<V>, n: nat)
    requires n <= |qs| && n <= |vals| && UniqueIds(qs)
    ensures forall k :: 0 <= k < n ==> qs[k].id in Written(base, qs, vals, n) && Written(base, qs, vals, n)[qs[k].id] == vals[k]
  {
    if n > 0 {
      WrittenValues(base, qs, vals, n - 1);
      forall k | 0 <= k < n - 1
        ensures qs[k].id != qs[n - 1].id
      {
      }
    }
  }

  /** The keys written are exactly those of base and of the first n questions. */
  lemma {:induction false} WrittenKeys<V>(base: map<int, V>, qs: seq<Question>, vals: seq<V>, n: nat)
    requires n <= |qs| && n <= |vals|
    ensures forall id :: id in Written(base, qs, vals, n) <==> (id in base || exists k :: 0 <= k < n && qs[k].id == id)
  {
    if n > 0 {
      WrittenKeys(base, qs, vals, n - 1);
    }
  }

  /** The result entries written for the first n questions of the exam, in
      order, on top of the entries already present. */
  function ResultsUpTo(base: map<int, QuestionResult>, qs: seq<Question>, answers: map<int, string>, n: nat)
    : map<int, QuestionResult>
    requires n <= |qs|
  {
    Written(base, qs, ResultsOf(qs, answers), n)
  }

  /** With distinct ids, each of the first n questions has its own entry:
      a later question never overwrites an earlier one's result. */
  lemma ResultsUpToValues(base: map<int, QuestionResult>, qs: seq<Question>, answers: map<int, string>, n: nat)
    requires n <= |qs| && UniqueIds(qs)
    ensures forall k :: 0 <= k < n ==>
      (qs[k].id in ResultsUpTo(base, qs, answers, n) && ResultsUpTo(base, qs, answers, n)[qs[k].id] == ResultFor(qs, answers, qs[k]))
  {
    WrittenValues(base, qs, ResultsOf(qs, answers), n);
  }

  /** The entries after n questions are exactly the earlier ones plus the
      ids of those n questions. */
  lemma ResultsUpToKeys(base: map<int, QuestionResult>, qs: seq<Question>, answers: map<int, string>, n: nat)
    requires n <= |qs|
    ensures forall id :: id in ResultsUpTo(base, qs, answers, n) <==>
      (id in base || exists k :: 0 <= k < n && qs[k].id == id)
  {
    WrittenKeys(base, qs, ResultsOf(qs, answers), n);
  }

  /** The wrong rows after scoring: every question not answered correctly is
      added with its answer, or "" when unanswered, unless already present. */
  function RecordMissed(rows: seq<WrongRow>, b: int, qs: seq<Question>, answers: map<int, string>): (r: seq<WrongRow>)
    ensures |r| >= |rows|
  {
    if |qs| == 0 then rows
    else
      var last := qs[|qs| - 1];
      var before := RecordMissed(rows, b, qs[..|qs| - 1], answers);
      if IsCorrect(last, answers) then before else Insert(before, b, last.id, AnswerOrEmpty(answers, last.id))
  }

  /** Scoring keeps the uniqueness constraint and every entry already present. */
  lemma {:induction false} RecordMissedKeeps(rows: seq<WrongRow>, b: int, qs: seq<Question>, answers: map<int, string>)
    ensures UniqueKeys(rows) ==> UniqueKeys(RecordMissed(rows, b, qs, answers))
    ensures forall b', q' :: AnswerOf(rows, b', q').Some? ==>
      AnswerOf(RecordMissed(rows, b, qs, answers), b', q') == AnswerOf(rows, b', q')
  {
    if qs != [] {
      var last := qs[|qs| - 1];
      RecordMissedKeeps(rows, b, qs[..|qs| - 1], answers);
      InsertSpec(RecordMissed(rows, b, qs[..|qs| - 1], answers), b, last.id, AnswerOrEmpty(answers, last.id));
    }
  }

  lemma DropLast(qs: seq<Question>)
    requires UniqueIds(qs) && qs != []
    ensures UniqueIds(qs[..|qs| - 1])
    ensures forall q :: q in qs[..|qs| - 1] ==> q in qs && q.id != qs[|qs| - 1].id
  {
    var init := qs[..|qs| - 1];
    forall q | q in init
      ensures q in qs && q.id != qs[|qs| - 1].id
    {
      var i :| 0 <= i < |init| && init[i] == q;
      assert qs[i] == q;
    }
  }

  /** Scoring leaves the wrong-set entry of an id no question of the exam has. */
  lemma {:induction false} RecordMissedOther(rows: seq<WrongRow>, b: int, qs: seq<Question>, answers: map<int, string>, qid: int)
    requires forall q :: q in qs ==> q.id != qid
    ensures AnswerOf(RecordMissed(rows, b, qs, answers), b, qid) == AnswerOf(rows, b, qid)
  {
    if qs != [] {
      var init, last := qs[..|qs| - 1], qs[|qs| - 1];
      assert last in qs;
      assert forall q :: q in init ==> q in qs;
      RecordMissedOther(rows, b, init, answers, qid);
      InsertSpec(RecordMissed(rows, b, init, answers), b, last.id, AnswerOrEmpty(answers, last.id));
    }
  }

  /** With distinct ids: a question not answered correctly ends up in the
      wrong set with the answer it got, or "" when unanswered, unless the set
      already held it; a correctly answered question's entry is left as it was. */
  lemma {:induction false} RecordMissedAt(rows: seq<WrongRow>, b: int, qs: seq<Question>, answers: map<int, string>, q: Question)
    requires UniqueIds(qs) && q in qs
    ensures AnswerOf(RecordMissed(rows, b, qs, answers), b, q.id) ==
      if IsCorrect(q, answers) || AnswerOf(rows, b, q.id).Some? then AnswerOf(rows, b, q.id)
      else Some(AnswerOrEmpty(answers, q.id))
  {
    var init, last := qs[..|qs| - 1], qs[|qs| - 1];
    assert qs == init + [last];
    DropLast(qs);
    InsertSpec(RecordMissed(rows, b, init, answers), b, last.id, AnswerOrEmpty(answers, last.id));
    if q == last {
      RecordMissedOther(rows, b, init, answers, last.id);
    } else {
      assert q in init;
      RecordMissedAt(rows, b, init, answers, q);
    }
  }

  /** The counters and result entries after scoring the first i questions
      of qs, the entries starting from base. */
  ghost predicate TalliedUpTo(qs: seq<Question>, a: map<int, string>, base: map<int, QuestionResult>,
                              i: nat, correct: int, earned: real, per: map<int, QuestionResult>)
  {
    && i <= |qs|
    && correct == CountCorrect(qs[..i], a)
    && earned == Earned(qs[..i], a)
    && per == ResultsUpTo(base, qs, a, i)
  }

  /** Scoring every question of qs scores qs itself. */
  lemma ScoredWhole(rows: seq<WrongRow>, b: int, qs: seq<Question>, a: map<int, string>,
                    base: map<int, QuestionResult>, correct: int, earned: real, per: map<int, QuestionResult>)
    requires TalliedUpTo(qs, a, base, |qs|, correct, earned, per)
    ensures correct == CountCorrect(qs, a) && earned == Earned(qs, a) && per == ResultsUpTo(base, qs, a, |qs|)
    ensures RecordMissed(rows, b, qs[..|qs|], a) == RecordMissed(rows, b, qs, a)
  {
    assert qs[..|qs|] == qs;
  }

  /** One more question scored: the correct count and the earned score take
      the step calculate_exam_result takes for it. */
  lemma TallyStep(qs: seq<Question>, answers: map<int, string>, i: nat)
    requires i < |qs|
    ensures var q, pre := qs[i], qs[..i];
      && CountCorrect(qs[..i + 1], answers) == CountCorrect(pre, answers) + (if IsCorrect(q, answers) then 1 else 0)
      && Earned(qs[..i + 1], answers) == Earned(pre, answers) + (if IsCorrect(q, answers) then q.score else 0.0)
  {
    var q, pre, post := qs[i], qs[..i], qs[..i + 1];
    assert post[..|post| - 1] == pre && post[|post| - 1] == q;
    assert Correct(post, answers) == Correct(pre, answers) + (if IsCorrect(q, answers) then [q] else []);
    if IsCorrect(q, answers) {
      TotalScoreAppend(Correct(pre, answers), [q]);
      assert [q][..0] == [];
    } else {
      assert Correct(post, answers) == Correct(pre, answers);
    }
  }

  /** One more question judged: a missed one is inserted into the wrong rows
      with its answer, "" when unanswered. */
  lemma MissedStep(rows: seq<WrongRow>, b: int, qs: seq<Question>, answers: map<int, string>, i: nat)
    requires i < |qs|
    ensures var q, pre := qs[i], qs[..i];
      RecordMissed(rows, b, qs[..i + 1], answers) ==
        (if IsCorrect(q, answers) then RecordMissed(rows, b, pre, answers)
         else Insert(RecordMissed(rows, b, pre, answers), b, q.id, AnswerOrEmpty(answers, q.id)))
  {
    var post := qs[..i + 1];
    assert post[..|post| - 1] == qs[..i] && post[|post| - 1] == qs[i];
  }

  /** The session invariant over the session's state: ids are distinct in
      the bank, the wrong table keeps its UNIQUE constraint, the index is in
      range (or 0 for an empty list), no stored answer is empty, and in a
      mode that mirrors its answers to the progress table the two agree. */
  predicate Consistent(bankId: int, bank: seq<Question>, db: Database, mode: Mode,
                       qs: seq<Question>, index: int, answers: map<int, string>)
  {
    && UniqueIds(bank)
    && UniqueKeys(db.wrongRows)
    && 0 <= index && (index < |qs| || index == 0)
    && NonEmptyAnswers(answers)
    && (forall key :: key in db.progress ==> NonEmptyAnswers(db.progress[key]))
    && (Mirrored(mode) ==> answers == AnswersIn(db.progress, (bankId, mode)))
  }

  class ExamSoftware {
    const bankId: int
    const questionBank: seq<Question>
    var mode: Mode
    var currentQuestions: seq<Question>
    var currentIndex: int
    var userAnswers: map<int, string>
    var wrongQuestions: seq<WrongItem>
    var examResults: ExamResults
    var examConfig: ExamConfig
    var db: Database

    /** The index stays within the list (0 when it is empty), stored answers
        are never empty, the answer map of a practice mode mirrors the
        progress table, the uniqueness constraints hold, and the loaded wrong
        list names no question twice. */
    predicate Valid()
      reads this`db, this`mode, this`currentQuestions, this`currentIndex, this`userAnswers, this`wrongQuestions
    {
      && Consistent(bankId, questionBank, db, mode, currentQuestions, currentIndex, userAnswers)
      && DistinctQuestions(wrongQuestions)
    }

    /** The session with a loaded bank: no mode yet, an empty wrong list (it
        is first loaded before a bank is selected), and the stored tables and
        exam configuration as given. */
    constructor(bankId: int, bank: seq<Question>, stored: Database, config: ExamConfig)
      requires UniqueIds(bank) && UniqueKeys(stored.wrongRows)
      requires forall key :: key in stored.progress ==> NonEmptyAnswers(stored.progress[key])
      ensures Valid()
      ensures this.bankId == bankId && questionBank == bank && db == stored && examConfig == config
      ensures mode == NoMode && currentQuestions == [] && currentIndex == 0 && userAnswers == map[]
      ensures wrongQuestions == [] && examResults == NoResults
    {
      this.bankId := bankId;
      questionBank := bank;
      db := stored;
      examConfig := config;
      mode := NoMode;
      currentQuestions := [];
      currentIndex := 0;
      userAnswers := map[];
      wrongQuestions := [];
      examResults := NoResults;
    }

    /** Everything but the stored tables is unchanged. */
    twostate predicate SessionKept()
      reads this
    {
      && mode == old(mode) && currentQuestions == old(currentQuestions) && currentIndex == old(currentIndex)
      && userAnswers == old(userAnswers) && wrongQuestions == old(wrongQuestions)
      && examResults == old(examResults) && examConfig == old(examConfig)
    }

    /** Mode, question list, index and exam state are unchanged. */
    twostate predicate PlaceKept()
      reads this
    {
      && mode == old(mode) && currentQuestions == old(currentQuestions) && currentIndex == old(currentIndex)
      && examResults == old(examResults) && examConfig == old(examConfig)
    }

    /** save_question_order: the stored order for (bank, m) is replaced in
        full by the ids of the current list; nothing is stored for an empty
        list. */
    method SaveQuestionOrder(m: Mode)
      modifies this
      ensures SessionKept()
      ensures currentQuestions == [] ==> db == old(db)
      ensures currentQuestions != [] ==> db == old(db).(orders := old(db).orders[(bankId, m) := Ids(currentQuestions)])
    {
      if currentQuestions == [] {
        return;
      }
      var ids: seq<int> := [];
      var position := 0;
      while position < |currentQuestions|
        invariant 0 <= position <= |currentQuestions|
        invariant ids == Ids(currentQuestions[..position])
      {
        assert Ids(currentQuestions[..position + 1]) == Ids(currentQuestions[..position]) + [currentQuestions[position].id];
        ids := ids + [currentQuestions[position].id];
        position := position + 1;
      }
      assert currentQuestions[..|currentQuestions|] == currentQuestions;
      db := db.(orders := db.orders[(bankId, m) := ids]);
    }

    /** save_current_position */
    method SaveCurrentPosition()
      modifies this
      ensures SessionKept()
      ensures db == WithPosition(old(db), bankId, mode, currentIndex)
      ensures old(Valid()) ==> Valid()
    {
      if mode == NoMode {
        return;
      }
      db := db.(positions := db.positions[(bankId, mode) := currentIndex]);
    }

    /** start_practice for sequential and random practice. `reshuffle` is the
        user's answer to the reshuffle question and `shuffled` the result of
        shuffling each type block. */
    method StartPractice(m: Mode, reshuffle: bool, shuffled: Blocks)
      requires Valid() && (m == Sequence || m == Random)
      requires m == Random ==> IsShuffleOf(shuffled, questionBank)
      modifies this
      ensures Valid()
      ensures questionBank == [] ==> unchanged(this)
      ensures questionBank != [] ==>
        && mode == m
        && userAnswers == AnswersIn(old(db).progress, (bankId, m))
        && wrongQuestions == old(wrongQuestions) && examResults == old(examResults) && examConfig == old(examConfig)
        && db.progress == old(db).progress && db.wrongRows == old(db).wrongRows
        && db.positions == old(db).positions[(bankId, m) := currentIndex]
      ensures questionBank != [] && m == Sequence ==> SequenceOrdered(old(db), currentQuestions, currentIndex, db.orders)
      ensures questionBank != [] && m == Random ==> RandomOrdered(old(db), reshuffle, shuffled, currentQuestions, currentIndex, db.orders)
    {
      if questionBank == [] {
        return;
      }
      mode := m;
      currentIndex := 0;
      userAnswers := AnswersIn(db.progress, (bankId, m));
      if m == Sequence {
        OrderSequentially();
      } else {
        OrderRandomly(reshuffle, shuffled);
      }
      assert Valid();
      SaveCurrentPosition();
    }

    /** Sequential order: all Single questions, then Multiple, then Judge,
        each block by ascending id, a permutation of the bank; the order is
        saved and a saved position within the list is restored. `before` is
        the database before, qs, index and orders the list, the index and the
        orders table after. */
    ghost predicate SequenceOrdered(before: Database, qs: seq<Question>, index: int, orders: map<(int, Mode), seq<int>>)
    {
      && qs == SequenceOrder(questionBank)
      && BlockOrdered(qs)
      && SortedWithinBlocks(qs)
      && multiset(qs) == multiset(questionBank)
      && index == Restored(before.positions, (bankId, Sequence), |qs|)
      && orders == before.orders[(bankId, Sequence) := Ids(qs)]
    }

    /** Random order: the saved order is reused, with the saved position, when
        it is as long as the bank and the user declines a reshuffle; otherwise
        the shuffled blocks are used from the first question and saved. */
    ghost predicate RandomOrdered(before: Database, reshuffle: bool, shuffled: Blocks,
                                  qs: seq<Question>, index: int, orders: map<(int, Mode), seq<int>>)
    {
      var saved := SavedOrder(before.orders, bankId, Random);
      if saved != [] && |saved| == |questionBank| && !reshuffle then ReusedOrder(before, saved, qs, index, orders)
      else ShuffledOrder(before, shuffled, qs, index, orders)
    }

    /** The saved random order, looked up id by id, at the saved position. */
    ghost predicate ReusedOrder(before: Database, saved: seq<int>,
                                qs: seq<Question>, index: int, orders: map<(int, Mode), seq<int>>)
    {
      && qs == LookupAll(saved, questionBank)
      && index == Restored(before.positions, (bankId, Random), |qs|)
      && orders == before.orders
    }

    /** A fresh shuffle: block-ordered, a permutation of the bank, from the
        first question, and saved. */
    ghost predicate ShuffledOrder(before: Database, shuffled: Blocks,
                                  qs: seq<Question>, index: int, orders: map<(int, Mode), seq<int>>)
    {
      && qs == shuffled.Concat()
      && BlockOrdered(qs)
      && multiset(qs) == multiset(questionBank)
      && index == 0
      && orders == before.orders[(bankId, Random) := Ids(qs)]
    }

    /** Mode, answers, wrong list, exam state and every table but the orders
        are unchanged. */
    twostate predicate OnlyOrderChanged()
      reads this
    {
      && mode == old(mode) && userAnswers == old(userAnswers) && wrongQuestions == old(wrongQuestions)
      && examResults == old(examResults) && examConfig == old(examConfig)
      && db.progress == old(db).progress && db.positions == old(db).positions && db.wrongRows == old(db).wrongRows
    }

    /** The sequence branch of start_practice. */
    method OrderSequentially()
      requires questionBank != []
      modifies this
      ensures OnlyOrderChanged()
      ensures SequenceOrdered(old(db), currentQuestions, currentIndex, db.orders)
      ensures 0 <= currentIndex && (currentIndex < |currentQuestions| || currentIndex == 0)
    {
      var qs := SequenceOrder(questionBank);
      SequenceOrderShape(questionBank);
      currentQuestions := qs;
      SaveQuestionOrder(Sequence);
      currentIndex := Restored(db.positions, (bankId, Sequence), |qs|);
      assert currentQuestions == qs;
      assert currentIndex == Restored(old(db).positions, (bankId, Sequence), |qs|);
      assert db.orders == old(db).orders[(bankId, Sequence) := Ids(qs)];
    }

    /** The random branch of start_practice. */
    method OrderRandomly(reshuffle: bool, shuffled: Blocks)
      requires questionBank != [] && IsShuffleOf(shuffled, questionBank)
      modifies this
      ensures OnlyOrderChanged()
      ensures RandomOrdered(old(db), reshuffle, shuffled, currentQuestions, currentIndex, db.orders)
      ensures 0 <= currentIndex && (currentIndex < |currentQuestions| || currentIndex == 0)
    {
      var saved := SavedOrder(db.orders, bankId, Random);
      var isFirstTime := !(saved != [] && |saved| == |questionBank|);
      var needShuffle := true;
      if !isFirstTime {
        needShuffle := reshuffle;
      }
      if needShuffle || isFirstTime {
        UseShuffled(shuffled);
      } else {
        currentQuestions := RebuildOrder(saved, questionBank);
        currentIndex := Restored(db.positions, (bankId, Random), |currentQuestions|);
        assert ReusedOrder(old(db), saved, currentQuestions, currentIndex, db.orders);
      }
    }

    /** A fresh shuffle is taken as the list and saved. */
    method UseShuffled(shuffled: Blocks)
      requires questionBank != [] && IsShuffleOf(shuffled, questionBank)
      modifies this
      ensures OnlyOrderChanged()
      ensures ShuffledOrder(old(db), shuffled, currentQuestions, currentIndex, db.orders)
    {
      var qs := shuffled.Concat();
      assert BlockOrdered(qs) && multiset(qs) == multiset(questionBank) by {
        RandomOrderShape(shuffled, questionBank);
      }
      assert qs != [] by {
        assert questionBank[0] in multiset(qs);
      }
      currentQuestions := qs;
      SaveQuestionOrder(Random);
      currentIndex := 0;
    }

    /** The `confirm` handler of the exam dialog, with each count clamped to
        its type's pool. `draws` is the result of sampling each type block. */
    method ConfirmExam(requested: ExamConfig, draws: Blocks) returns (created: bool)
      requires Valid() && IsExamDraw(draws, questionBank, requested)
      modifies this
      ensures Valid()
      ensures created <==> Clamped(requested, questionBank).Total() != 0
      ensures !created ==> unchanged(this)
      ensures created ==>
        && examConfig == Clamped(requested, questionBank)
        && mode == Exam && currentQuestions == draws.Concat() && currentIndex == 0 && userAnswers == map[]
        && examResults == Results(|currentQuestions|, 0, 0, 0.0, TotalScore(currentQuestions), map[])
        && wrongQuestions == old(wrongQuestions)
        && db == old(db).(positions := old(db).positions[(bankId, Exam) := 0])
      ensures created ==>
        && BlockOrdered(currentQuestions) && UniqueIds(currentQuestions)
        && multiset(currentQuestions) <= multiset(questionBank)
        && |currentQuestions| == examConfig.Total()
        && OfType(currentQuestions, Single) == draws.single
        && OfType(currentQuestions, Multiple) == draws.multiple
        && OfType(currentQuestions, Judge) == draws.judge
    {
      var counts := Clamped(requested, questionBank);
      if counts.Total() == 0 {
        return false;
      }
      var qs := draws.Concat();
      ExamDrawShape(draws, questionBank, requested);
      BeginExam(counts, qs);
      return true;
    }

    /** The state the confirm handler leaves for a new exam over qs. */
    method BeginExam(counts: ExamConfig, qs: seq<Question>)
      requires Valid()
      modifies this
      ensures Valid()
      ensures examConfig == counts && mode == Exam && currentQuestions == qs && currentIndex == 0
      ensures userAnswers == map[] && wrongQuestions == old(wrongQuestions)
      ensures examResults == Results(|qs|, 0, 0, 0.0, TotalScore(qs), map[])
      ensures db == old(db).(positions := old(db).positions[(bankId, Exam) := 0])
    {
      examConfig := counts;
      currentQuestions := qs;
      mode := Exam;
      currentIndex := 0;
      userAnswers := map[];
      examResults := Results(|qs|, 0, 0, 0.0, TotalScore(qs), map[]);
      SaveCurrentPosition();
    }

    /** auto_save_answer: a non-empty selection is recorded in the answer map
        and the progress table; an empty one changes nothing. */
    method AutoSaveAnswer(q: Question, sel: Selection)
      requires Valid() && |sel.checks| <= MaxOptions
      modifies this
      ensures Valid()
      ensures var a := UserAnswer(q.qtype, sel);
        && PlaceKept() && wrongQuestions == old(wrongQuestions)
        && userAnswers == RecordAnswer(old(userAnswers), q.id, a)
        && db == old(db).(progress := StoreAnswer(old(db).progress, (bankId, mode), q.id, a))
    {
      var a := UserAnswer(q.qtype, sel);
      if a != "" {
        userAnswers := userAnswers[q.id := a];
        db := db.(progress := StoreAnswer(db.progress, (bankId, mode), q.id, a));
      }
    }

    /** The correctness part of submit_answer_and_view_analysis: without a
        selection nothing happens; otherwise the answer is recorded, judged
        by exact equality with the stored answer, and a wrong answer is added
        to the wrong set. */
    method SubmitAnswerAndViewAnalysis(q: Question, sel: Selection) returns (outcome: Reveal)
      requires Valid() && |sel.checks| <= MaxOptions
      modifies this
      ensures Valid()
      ensures var a := UserAnswer(q.qtype, sel);
        && (a == "" ==> outcome == NoAnswerSelected && unchanged(this))
        && (a != "" ==>
              && outcome == Revealed(a == q.answer)
              && PlaceKept()
              && userAnswers == old(userAnswers)[q.id := a]
              && db.progress == StoreAnswer(old(db).progress, (bankId, mode), q.id, a)
              && db.orders == old(db).orders && db.positions == old(db).positions
              && (a == q.answer ==> db.wrongRows == old(db).wrongRows && wrongQuestions == old(wrongQuestions))
              && (a != q.answer ==>
                    && db.wrongRows == Insert(old(db).wrongRows, bankId, q.id, a)
                    && wrongQuestions == if AnswerOf(old(db).wrongRows, bankId, q.id).Some? then old(wrongQuestions)
                                         else WrongList(db.wrongRows, bankId, questionBank)))
    {
      var a := UserAnswer(q.qtype, sel);
      if a == "" {
        return NoAnswerSelected;
      }
      userAnswers := userAnswers[q.id := a];
      db := db.(progress := StoreAnswer(db.progress, (bankId, mode), q.id, a));
      var isCorrect := a == q.answer;
      if !isCorrect {
        AddToWrongQuestions(q, a);
      }
      return Revealed(isCorrect);
    }

    /** prev_question */
    method PrevQuestion() returns (moved: bool)
      requires Valid()
      modifies this
      ensures Valid()
      ensures moved <==> old(currentIndex) > 0
      ensures currentIndex == if moved then old(currentIndex) - 1 else old(currentIndex)
      ensures mode == old(mode) && currentQuestions == old(currentQuestions) && userAnswers == old(userAnswers)
      ensures wrongQuestions == old(wrongQuestions) && examResults == old(examResults) && examConfig == old(examConfig)
      ensures db == if moved then WithPosition(old(db), bankId, mode, currentIndex) else old(db)
    {
      moved := currentIndex > 0;
      if moved {
        currentIndex := currentIndex - 1;
        SaveCurrentPosition();
      }
    }

    /** next_question: one step forward; at the last question an exam goes to
        submission and a practice ends. `confirmSubmit` is the user's answer
        when the exam still has unanswered questions. */
    method NextQuestion(confirmSubmit: bool) returns (outcome: NextOutcome)
      requires Valid()
      modifies this
      ensures Valid()
      ensures old(currentIndex) < |old(currentQuestions)| - 1 ==>
        && outcome == Moved && currentIndex == old(currentIndex) + 1
        && mode == old(mode) && currentQuestions == old(currentQuestions) && userAnswers == old(userAnswers)
        && wrongQuestions == old(wrongQuestions) && examResults == old(examResults) && examConfig == old(examConfig)
        && db == WithPosition(old(db), bankId, mode, currentIndex)
      ensures old(currentIndex) >= |old(currentQuestions)| - 1 && old(mode) != Exam ==>
        outcome == PracticeFinished && unchanged(this)
      ensures old(currentIndex) >= |old(currentQuestions)| - 1 && old(mode) == Exam ==>
        && outcome.ExamSubmission?
        && UnansweredReport(outcome.unanswered, old(currentQuestions), old(userAnswers))
        && (outcome.submitted <==> outcome.unanswered == [] || confirmSubmit)
        && (outcome.submitted ==> Scored())
        && (!outcome.submitted ==> unchanged(this))
    {
      if currentIndex < |currentQuestions| - 1 {
        currentIndex := currentIndex + 1;
        SaveCurrentPosition();
        return Moved;
      }
      if mode == Exam {
        var unanswered, submitted := SubmitExam(confirmSubmit);
        return ExamSubmission(unanswered, submitted);
      }
      return PracticeFinished;
    }

    /** jump_to_question_by_box_id, with the box resolved to its index: an
        index outside the list is ignored. */
    method JumpTo(target: int)
      requires Valid()
      modifies this
      ensures Valid()
      ensures 0 <= target < |currentQuestions| ==>
        && currentIndex == target
        && mode == old(mode) && currentQuestions == old(currentQuestions) && userAnswers == old(userAnswers)
        && wrongQuestions == old(wrongQuestions) && examResults == old(examResults) && examConfig == old(examConfig)
        && db == WithPosition(old(db), bankId, mode, target)
      ensures !(0 <= target < |currentQuestions|) ==> unchanged(this)
    {
      if target < 0 || target >= |currentQuestions| {
        return;
      }
      currentIndex := target;
      SaveCurrentPosition();
    }

    /** The display numbers of the unanswered questions, in list order. */
    ghost predicate UnansweredReport(numbers: seq<int>, qs: seq<Question>, answers: map<int, string>)
    {
      var u := Unanswered(qs, answers, |qs|);
      |numbers| == |u| && forall m :: 0 <= m < |numbers| ==> numbers[m] == DisplayNumber(qs, u[m])
    }

    /** The state after calculate_exam_result, relative to the state before. */
    twostate predicate Scored()
      reads this
    {
      var qs, a := old(currentQuestions), old(userAnswers);
      var base := if old(examResults).Results? then old(examResults).perQuestion else map[];
      && mode == old(mode) && currentQuestions == qs && currentIndex == old(currentIndex)
      && userAnswers == a && examConfig == old(examConfig)
      && examResults == Results(|qs|, CountCorrect(qs, a), |qs| - CountCorrect(qs, a),
                                Earned(qs, a), TotalScore(qs), ResultsUpTo(base, qs, a, |qs|))
      && db == old(db).(wrongRows := RecordMissed(old(db).wrongRows, bankId, qs, a))
      && wrongQuestions == if |db.wrongRows| == |old(db).wrongRows| then old(wrongQuestions)
                           else WrongList(db.wrongRows, bankId, questionBank)
    }

    /** submit_exam: lists the unanswered questions; with some unanswered and
        no confirmation nothing happens, otherwise the exam is scored. */
    method SubmitExam(confirm: bool) returns (unanswered: seq<int>, submitted: bool)
      requires Valid()
      modifies this
      ensures Valid()
      ensures UnansweredReport(unanswered, old(currentQuestions), old(userAnswers))
      ensures submitted <==> unanswered == [] || confirm
      ensures submitted ==> Scored()
      ensures !submitted ==> unchanged(this)
    {
      unanswered := UnansweredNumbers(currentQuestions, userAnswers);
      if unanswered != [] && !confirm {
        return unanswered, false;
      }
      CalculateExamResult();
      return unanswered, true;
    }

    /** calculate_exam_result */
    method CalculateExamResult()
      requires Valid()
      modifies this`db, this`wrongQuestions, this`examResults
      ensures Valid()
      ensures Scored()
    {
      var qs, a := currentQuestions, userAnswers;
      var base := if examResults.Results? then examResults.perQuestion else map[];
      var correct, earned, per := ScoreAll(qs, a, base);
      assert Valid();
      examResults := Results(|qs|, correct, |qs| - correct, earned, TotalScore(qs), per);
    }

    /** The loop of calculate_exam_result: judges every question of qs in
        order and tallies the counters and the result entries, starting
        from the entries in base. */
    method ScoreAll(qs: seq<Question>, a: map<int, string>, base: map<int, QuestionResult>)
      returns (correct: int, earned: real, per: map<int, QuestionResult>)
      requires Valid() && currentQuestions == qs && userAnswers == a
      modifies this`db, this`wrongQuestions
      ensures Valid()
      ensures db == old(db).(wrongRows := RecordMissed(old(db).wrongRows, bankId, qs, a))
      ensures wrongQuestions == if |db.wrongRows| == |old(db).wrongRows| then old(wrongQuestions)
                                else WrongList(db.wrongRows, bankId, questionBank)
      ensures correct == CountCorrect(qs, a) && earned == Earned(qs, a) && per == ResultsUpTo(base, qs, a, |qs|)
    {
      ghost var rows0, listed0 := db.wrongRows, wrongQuestions;
      correct, earned, per := 0, 0.0, base;
      for i := 0 to |qs|
        invariant Valid()
        invariant db == old(db).(wrongRows := db.wrongRows)
        invariant ScoredUpTo(qs, a, base, rows0, listed0, i, correct, earned, per)
      {
        correct, earned, per := ScoreQuestion(qs, a, base, rows0, listed0, i, correct, earned, per);
      }
      ScoredWhole(rows0, bankId, qs, a, base, correct, earned, per);
    }

    /** The state after scoring the first i questions of qs: the missed ones
        are recorded in the wrong set, and the counters and result entries
        cover those i. */
    ghost predicate ScoredUpTo(qs: seq<Question>, a: map<int, string>, base: map<int, QuestionResult>,
                               rows0: seq<WrongRow>, listed0: seq<WrongItem>,
                               i: nat, correct: int, earned: real, per: map<int, QuestionResult>)
      reads this
    {
      MissedUpTo(qs, a, rows0, listed0, i) && TalliedUpTo(qs, a, base, i, correct, earned, per)
    }

    /** The body of the scoring loop for question i. */
    method ScoreQuestion(qs: seq<Question>, a: map<int, string>, base: map<int, QuestionResult>,
                         ghost rows0: seq<WrongRow>, ghost listed0: seq<WrongItem>,
                         i: nat, correct: int, earned: real, per: map<int, QuestionResult>)
      returns (correct': int, earned': real, per': map<int, QuestionResult>)
      requires i < |qs| && Valid()
      requires ScoredUpTo(qs, a, base, rows0, listed0, i, correct, earned, per)
      modifies this`db, this`wrongQuestions
      ensures Valid()
      ensures db == old(db).(wrongRows := db.wrongRows)
      ensures ScoredUpTo(qs, a, base, rows0, listed0, i + 1, correct', earned', per')
    {
      var isCorrect := JudgeAt(qs, a, rows0, listed0, i);
      correct', earned', per' := Tally(qs, a, base, i, isCorrect, correct, earned, per);
    }

    /** The wrong set after judging the first i questions of qs: the missed
        ones are recorded, and the wrong list was reloaded if a row was added. */
    ghost predicate MissedUpTo(qs: seq<Question>, a: map<int, string>,
                               rows0: seq<WrongRow>, listed0: seq<WrongItem>, i: nat)
      reads this
    {
      && i <= |qs|
      && currentQuestions == qs && userAnswers == a
      && db.wrongRows == RecordMissed(rows0, bankId, qs[..i], a)
      && wrongQuestions == (if |db.wrongRows| == |rows0| then listed0 else WrongList(db.wrongRows, bankId, questionBank))
    }

    /** Judging question i of the scoring loop extends the recorded misses
        by that question. */
    method JudgeAt(qs: seq<Question>, a: map<int, string>,
                   ghost rows0: seq<WrongRow>, ghost listed0: seq<WrongItem>, i: nat)
      returns (isCorrect: bool)
      requires i < |qs| && Valid() && MissedUpTo(qs, a, rows0, listed0, i)
      modifies this`db, this`wrongQuestions
      ensures Valid()
      ensures isCorrect == IsCorrect(qs[i], a)
      ensures db == old(db).(wrongRows := db.wrongRows)
      ensures MissedUpTo(qs, a, rows0, listed0, i + 1)
    {
      MissedStep(rows0, bankId, qs, a, i);
      isCorrect := JudgeExamQuestion(qs[i]);
    }

    /** Counting question i of the scoring loop: the correct count and the
        earned score grow when it is correct, and its result entry is set. */
    method Tally(qs: seq<Question>, a: map<int, string>, base: map<int, QuestionResult>,
                 i: nat, isCorrect: bool, correct: int, earned: real, per: map<int, QuestionResult>)
      returns (correct': int, earned': real, per': map<int, QuestionResult>)
      requires i < |qs| && isCorrect == IsCorrect(qs[i], a)
      requires TalliedUpTo(qs, a, base, i, correct, earned, per)
      ensures TalliedUpTo(qs, a, base, i + 1, correct', earned', per')
    {
      var q := qs[i];
      TallyStep(qs, a, i);
      correct', earned' := correct, earned;
      if isCorrect {
        correct' := correct + 1;
        earned' := earned + q.score;
      }
      per' := per[q.id := ResultFor(qs, a, q)];
    }

    /** One question of calculate_exam_result: correct exactly when an answer
        is recorded and equals the stored one; otherwise the question goes to
        the wrong set with its answer, or "" when unanswered. */
    method JudgeExamQuestion(q: Question) returns (isCorrect: bool)
      requires Valid()
      modifies this`db, this`wrongQuestions
      ensures Valid()
      ensures isCorrect == IsCorrect(q, userAnswers)
      ensures db == old(db).(wrongRows :=
        if isCorrect then old(db).wrongRows
        else Insert(old(db).wrongRows, bankId, q.id, AnswerOrEmpty(userAnswers, q.id)))
      ensures wrongQuestions == if |db.wrongRows| == |old(db).wrongRows| then old(wrongQuestions)
                               else WrongList(db.wrongRows, bankId, questionBank)
    {
      if q.id in userAnswers {
        var ua := userAnswers[q.id];
        isCorrect := ua == q.answer;
        if !isCorrect {
          AddToWrongQuestions(q, ua);
        }
      } else {
        AddToWrongQuestions(q, "");
        isCorrect := false;
      }
    }

    /** add_to_wrong_questions: adds (bank, question) with the answer only
        when the pair is absent, and then reloads the wrong list. */
    method AddToWrongQuestions(q: Question, answer: string)
      requires Valid()
      modifies this`db, this`wrongQuestions
      ensures Valid()
      ensures db == old(db).(wrongRows := Insert(old(db).wrongRows, bankId, q.id, answer))
      ensures wrongQuestions == if AnswerOf(old(db).wrongRows, bankId, q.id).Some? then old(wrongQuestions)
                               else WrongList(db.wrongRows, bankId, questionBank)
    {
      if AnswerOf(db.wrongRows, bankId, q.id).Some? {
        return;
      }
      InsertRow(q, answer);
      LoadWrongQuestions();
    }

    /** The INSERT INTO wrong_questions statement, run once the pair is
        known to be absent: the new row goes at the end of the table. */
    method InsertRow(q: Question, answer: string)
      requires Valid() && AnswerOf(db.wrongRows, bankId, q.id).None?
      modifies this`db
      ensures Valid()
      ensures db == old(db).(wrongRows := Insert(old(db).wrongRows, bankId, q.id, answer))
    {
      InsertSpec(db.wrongRows, bankId, q.id, answer);
      db := db.(wrongRows := db.wrongRows + [WrongRow(bankId, q.id, answer)]);
    }

    /** mark_as_wrong: as add_to_wrong_questions with the recorded answer, or
        "" when there is none; reports whether the question was added. */
    method MarkAsWrong(q: Question) returns (added: bool)
      requires Valid()
      modifies this`db, this`wrongQuestions
      ensures Valid()
      ensures added <==> AnswerOf(old(db).wrongRows, bankId, q.id).None?
      ensures db == old(db).(wrongRows := Insert(old(db).wrongRows, bankId, q.id, AnswerOrEmpty(userAnswers, q.id)))
      ensures wrongQuestions == if added then WrongList(db.wrongRows, bankId, questionBank) else old(wrongQuestions)
    {
      if AnswerOf(db.wrongRows, bankId, q.id).Some? {
        return false;
      }
      var answer := if q.id in userAnswers then userAnswers[q.id] else "";
      InsertRow(q, answer);
      LoadWrongQuestions();
      return true;
    }

    /** remove_from_wrong: deletes the pair, present or not, and reloads. */
    method RemoveFromWrong(q: Question)
      requires Valid()
      modifies this`db, this`wrongQuestions
      ensures Valid()
      ensures db == old(db).(wrongRows := Delete(old(db).wrongRows, bankId, q.id))
      ensures wrongQuestions == WrongList(db.wrongRows, bankId, questionBank)
    {
      db := db.(wrongRows := Delete(db.wrongRows, bankId, q.id));
      LoadWrongQuestions();
    }

    /** load_wrong_questions */
    method LoadWrongQuestions()
      modifies this`wrongQuestions
      ensures wrongQuestions == WrongList(db.wrongRows, bankId, questionBank)
      ensures UniqueKeys(db.wrongRows) ==> DistinctQuestions(wrongQuestions)
    {
      wrongQuestions := LoadWrongList(db.wrongRows, bankId, questionBank);
      if UniqueKeys(db.wrongRows) {
        WrongListDistinct(db.wrongRows, bankId, questionBank);
      }
    }

    /** practice_wrong_questions: with an empty wrong list nothing happens;
        otherwise the list is copied as the questions to practise, from the
        first, with the answers stored for Wrong mode. */
    method PracticeWrongQuestions() returns (started: bool)
      requires Valid()
      modifies this
      ensures Valid()
      ensures started <==> old(wrongQuestions) != []
      ensures !started ==> unchanged(this)
      ensures started ==>
        && mode == Wrong && currentQuestions == QuestionsOf(old(wrongQuestions)) && currentIndex == 0
        && userAnswers == AnswersIn(old(db).progress, (bankId, Wrong))
        && wrongQuestions == old(wrongQuestions) && examResults == old(examResults) && examConfig == old(examConfig)
        && db == old(db).(positions := old(db).positions[(bankId, Wrong) := 0])
      ensures started ==> UniqueIds(currentQuestions)
    {
      if wrongQuestions == [] {
        return false;
      }
      mode := Wrong;
      currentQuestions := QuestionsOf(wrongQuestions);
      currentIndex := 0;
      userAnswers := AnswersIn(db.progress, (bankId, Wrong));
      SaveCurrentPosition();
      return true;
    }
  }
}
