# Practice engine of the exerciser question-bank trainer

This project models the practice engine inside the `ExamSoftware` class of
`main.py` and proves properties of it. The engine drives a bank of
single-choice (单选), multiple-choice (多选) and true/false (判断) questions
through four modes. Sequential and random practice order the bank into type
blocks. An exam samples a given number of questions of each type. Wrong-set
practice replays the questions recorded as answered wrongly.

The engine keeps a small session state: the mode, the current question list,
an index into it, the answer map, the loaded wrong list and the exam
results. It also reads and writes SQLite tables. Here those tables are
in-memory maps keyed as their UNIQUE constraints are:

- progress: (bank, mode) to the answers by question id;
- question orders: (bank, mode) to the question ids by position;
- position entries: the `last_position_{mode}_{bank}` configuration keys;
- the wrong set: a sequence of (bank, question, answer) rows in insertion
  order, with UNIQUE(bank, question) as an invariant.

Modules:

- `Questions` (questions.dfy): the question record and the type filter.
  Also the Judge default options, option letters and radio values. Also the
  multiple-choice answer encoding and its round trip with the check boxes.
- `Ordering` (ordering.dfy): the sequential order, the random order built
  from shuffled blocks, and rebuilding a saved order from its ids.
- `Numbering` (numbering.dfy): the continuous display numbers across type
  blocks, the start number of each block of progress boxes, and the
  unanswered-question report of exam submission.
- `Scoring` (scoring.dfy): which exam questions count as correct, the
  correct count and the earned score.
- `WrongSet` (wrong_set.dfy): the wrong-question table, add-if-absent,
  delete, and the newest-first wrong list joined with the bank.
- `ExamSampler` (exam_sampler.dfy): exam counts, what a per-type draw must
  satisfy, and the confirm handler as written (see Findings).
- `Engine` (engine.dfy): the class `ExamSoftware` with the session fields
  and the stored tables. Its methods are the engine's operations, each
  proved against the functions above. `Valid()` is the session invariant
  every operation keeps:
  - the index is in range, or 0 for an empty list;
  - stored answers are never empty;
  - in a practice mode the answer map equals what the progress table holds;
  - the uniqueness constraints hold;
  - the loaded wrong list names no question twice.

The exam counts are the one place where the model departs from the code.
`Engine.ExamSoftware.ConfirmExam` clamps each count to its type's pool, as
the spin boxes intend. `ExamSampler.ConfirmAsWritten` keeps the handler as
written, which uses the counts as typed (see Findings).

Three behaviours of the code that a reader might not expect, and that the
model keeps:

- A Judge question's radio value is the option text itself, not a letter.
  Its answer is compared with that text.
- A saved random order is reused when it has as many entries as the bank.
  Only the length is compared, not the set of ids; ids no longer in the
  bank are skipped when it is rebuilt.
- The sequential order sorts each type block by id.

## Model

| member | source | states |
|---|---|---|
| Questions.OfTypeSound | main.py:626-628 | the type filter only yields questions of the bank that have that type |
| Questions.OfTypeMultiset | main.py:626-628 | the type filter keeps every question of that type exactly as often as the bank holds it, and no other question |
| Questions.OfTypePartition | main.py:626-628 | the three type blocks together are a partition of the questions: their multisets add up to the bank and their sizes to its length |
| Questions.FindById | main.py:696-699 | the lookup returns a question of the bank with the requested id, and returns nothing exactly when no bank question has that id |
| Questions.FindByIdAt | main.py:696-699 | with unique ids, looking up the id of a bank question returns that very question |
| Questions.Ids | main.py:747-752 | the order saved from a question list with unique ids holds no id twice |
| Questions.WithJudgeDefault | main.py:590-592 | a Judge question without options gets exactly the pair 正确, 错误, so every Judge question ends up with options; id, type, answer and score are kept, and a question of any other type, or one that has options, is returned unchanged |
| Questions.SingleRadioValuesDistinct | main.py:1342-1351 | a radio button stands for its option text on a Judge question and for its letter chr(65 + i) otherwise; so two radio buttons of a single-choice question with the same value are the same button |
| Questions.MultipleAnswerCanonical | main.py:1505 | the multiple-choice answer is the ticked letters, each once, in option order; a letter occurs in it exactly when its box is ticked, and it is empty exactly when no box is ticked |
| Questions.RestoreAfterEncode | main.py:1393-1396 | re-ticking the boxes from the answer they produced gives back exactly the same boxes |
| Questions.EncodeAfterRestore | main.py:1393-1396 | reading back the boxes ticked from a canonical answer gives exactly that answer |
| Questions.UserAnswer | main.py:1500-1506 | Single and Judge questions answer with the radio value; a Multiple answer is canonical and empty exactly when no box is ticked |
| Scoring.CorrectMissedMembers | main.py:1676-1690 | a question counts as correct exactly when an answer is recorded for it and equals the stored answer; every other question, unanswered ones included, is missed |
| Scoring.CorrectPlusMissed | main.py:1719-1720 | the correct count plus the number of missed questions is the number of exam questions |
| Scoring.EarnedBounds | main.py:1681-1683 | with non-negative scores the earned score lies between zero and the exam's total score |
| Scoring.AllCorrect | main.py:1676-1683 | everything counts as correct exactly when every question is answered correctly, and then the whole total score is earned |
| WrongSet.AnswerOf | main.py:2186-2192 | the lookup finds nothing exactly when the table has no row for the pair, and otherwise returns the answer of one of the pair's rows |
| WrongSet.AnswerOfUnique | main.py:171-181 | under UNIQUE(bank_id, question_id) the lookup returns the answer of the pair's only row |
| WrongSet.Insert | main.py:2183-2200 | the table grows by one row when the pair is absent and is left as it was when it is present |
| WrongSet.InsertSpec | main.py:2183-2200 | after adding, the pair holds its first recorded answer, or the new one when it had none; every other pair's lookup is unchanged; the uniqueness constraint is kept |
| WrongSet.Delete | main.py:2466-2473 | after removal the pair has no row, every other pair's lookup is unchanged, no row is added, and the uniqueness constraint is kept |
| WrongSet.WrongListSound | main.py:2208-2245 | every loaded entry is a bank question, with the Judge default applied, and is backed by a row of this bank carrying the entry's answer |
| WrongSet.WrongListComplete | main.py:2208-2245 | every row of this bank whose question is in the bank is loaded, with its answer |
| WrongSet.WrongListDistinct | main.py:2208-2245 | under the uniqueness constraint no question appears twice in the loaded list |
| WrongSet.WrongListNewestFirst | main.py:2215-2221 | of two rows of this bank whose questions are in the bank, the entry of the row added later comes first in the loaded list |
| WrongSet.LoadWrongList | main.py:2208-2245 | the loading loop yields the rows of this bank joined with their questions, newest first |
| Ordering.SortById | main.py:631-633 | sorting by id returns a permutation of its input |
| Ordering.SortByIdSorted | main.py:631-633 | sorting by id returns the questions in ascending id order |
| Ordering.SortByIdOfSorted | main.py:571-573 | sorting questions already loaded in id order leaves them unchanged |
| Ordering.SequenceOrderShape | main.py:624-636 | the sequential order puts all Single questions first, then Multiple, then Judge, ascends by id within each block, and is a permutation of the bank |
| Ordering.SequenceOrderUnique | main.py:624-636 | any arrangement of the bank with that block order and id order is the sequential order, so the order depends on the bank alone |
| Ordering.RandomOrderShape | main.py:678-688 | the shuffled order keeps the block order, each block is exactly the shuffled block of its type, and it is a permutation of the bank |
| Ordering.LookupAll | main.py:694-698 | the rebuilt order has at most as many questions as saved ids, all from the bank |
| Ordering.LookupAllIds | main.py:694-698 | when every saved id is still in the bank, the rebuilt order has exactly the saved ids in the saved order |
| Ordering.LookupAllOfIds | main.py:694-698 | an order saved from questions of the bank is rebuilt into the same question list |
| Ordering.FindFirst | main.py:696-699 | the search loop finds the first bank question with the id, or nothing |
| Ordering.RebuildOrder | main.py:694-699 | the rebuilding loop yields the saved ids' questions in the saved order, skipping missing ids |
| Numbering.BoxNumberMatchesDisplay | main.py:1158-1189 | the progress box of a question shows the same number as the question's header: it is box i of its type's run, numbered from that run's start |
| Numbering.DisplayNumberInRun | main.py:1158-1166 | the number of a question of type t lies in t's run: from its start number, one box per question of type t |
| Numbering.DisplayNumberFillsRun | main.py:1181-1189 | every box of a type's run stands for a question: box i of type t shows the number of a question of type t |
| Numbering.DisplayNumberRange | main.py:1265-1275 | every display number lies between 1 and the number of questions |
| Numbering.DisplayNumberInjective | main.py:1265-1275 | distinct positions get distinct display numbers |
| Numbering.BlockOrderedNumbering | main.py:1265-1275 | in a block-ordered list the question at index k is numbered k + 1 |
| Numbering.UnansweredSound | main.py:1645-1646 | every index in the unanswered list holds a question with no recorded answer |
| Numbering.UnansweredComplete | main.py:1645-1646 | every question with no recorded answer is in the unanswered list |
| Numbering.UnansweredIncreasing | main.py:1645-1660 | the unanswered list ascends, so no question is listed twice |
| Numbering.UnansweredNumbers | main.py:1641-1660 | the loop reports the display number of each unanswered question, in list order |
| Numbering.UnansweredNumbersMeaning | main.py:1641-1662 | the reported numbers are valid and pairwise distinct, and there are none exactly when every question has an answer |
| Numbering.IndexOf | main.py:1693-1698 | the position found holds the question |
| Numbering.IndexOfFirst | main.py:1693-1698 | the position found is the first one holding the question |
| ExamSampler.ClampCount | main.py:826-827 | a count brought into the spin box range is within the pool, is 0 for a non-positive request, and is the request when that fits |
| ExamSampler.ExamDrawShape | main.py:898-911 | the exam is block ordered and each block is exactly the draw of its type; its questions are distinct questions of the bank, as many as the clamped counts add up to |
| ExamSampler.ConfirmAsWritten | main.py:881-911 | the handler as written warns exactly when the total is zero, raises exactly when a count exceeds its type's pool, and otherwise, for counts already in 0..pool, builds the same exam as the clamped handler |
| ExamSampler.ConfirmAsWrittenCounterexamples | main.py:881-911 | the handler as written raises for a request above the pool and builds an empty exam for a negative count; the clamped counts do neither |
| Engine.RecordAnswer | main.py:1508-1512 | an empty answer is never stored; a non-empty one replaces the entry for its question and no other entry changes |
| Engine.Restored | main.py:647-651 | a saved position is used only when it is a valid index of the list; otherwise the index is 0 |
| Engine.QuestionsOf | main.py:2491 | a wrong list in which no question appears twice gives a practice list whose ids are distinct |
| Engine.ResultsUpToValues | main.py:1708-1717 | with distinct ids each exam question has its own result entry, and no later question overwrites an earlier one's |
| Engine.ResultsUpToKeys | main.py:1708-1717 | the result entries after scoring are exactly the earlier entries plus one per exam question |
| Engine.RecordMissedKeeps | main.py:1676-1690 | scoring keeps the uniqueness constraint and every wrong-set entry already present |
| Engine.RecordMissedOther | main.py:1676-1690 | scoring leaves the wrong-set entry of a question outside the exam unchanged |
| Engine.RecordMissedAt | main.py:1676-1690 | a question not answered correctly ends up in the wrong set with its answer, or "" when unanswered, unless it was there already; a correct one's entry is untouched |
| Engine.ExamSoftware.constructor | main.py:42-59 | the session starts with no mode, no questions, index 0, no answers, no exam results and the given tables and exam configuration |
| Engine.ExamSoftware.SaveQuestionOrder | main.py:734-757 | the stored order for (bank, mode) is replaced in full by the current list's ids in list order; nothing is stored for an empty list; the session is untouched |
| Engine.ExamSoftware.SaveCurrentPosition | main.py:759-773 | the position entry of (bank, current mode) is set to the current index, nothing is stored while no mode is set, the session fields are left as they were, and a valid session stays valid |
| Engine.ExamSoftware.StartPractice | main.py:599-732 | with an empty bank nothing changes; otherwise the mode is set, the answers come from the progress table, the list is the sequential or the random order, the position is restored or 0, the order and position are saved, and the session invariant holds |
| Engine.ExamSoftware.OrderSequentially | main.py:624-651 | the list is the sequential order, saved, and a saved position is restored only when it is a valid index |
| Engine.ExamSoftware.OrderRandomly | main.py:653-725 | a saved order as long as the bank is reused at its saved position unless a reshuffle is asked for; otherwise the shuffled blocks are used from the first question and saved |
| Engine.ExamSoftware.UseShuffled | main.py:677-690 | the shuffled blocks become the list, which is block ordered and a permutation of the bank; it starts at the first question and is saved |
| Engine.ExamSoftware.ConfirmExam | main.py:881-927 | an exam is created exactly when the clamped counts do not add up to 0, and otherwise nothing changes; a created exam is block ordered, holds distinct bank questions as many as the counts, and starts at index 0 with no answers and zeroed results |
| Engine.ExamSoftware.BeginExam | main.py:912-927 | the exam state: exam mode, the new list at index 0, no answers, the header of the results with the total score, and the position saved |
| Engine.ExamSoftware.AutoSaveAnswer | main.py:1508-1520 | an empty selection changes nothing; a non-empty one replaces the answer of that question in the answer map and the progress table, and nothing else |
| Engine.ExamSoftware.SubmitAnswerAndViewAnalysis | main.py:1543-1577 | without a selection nothing changes; otherwise the answer is recorded, judged correct exactly when it equals the stored answer, and a wrong answer is added to the wrong set unless the question is already there |
| Engine.ExamSoftware.PrevQuestion | main.py:1621-1627 | the index goes back by exactly one when it is above 0 and is unchanged at the first question; it stays in range |
| Engine.ExamSoftware.NextQuestion | main.py:1629-1639 | the index goes forward by exactly one before the last question; at the last question a practice ends unchanged and an exam goes to submission |
| Engine.ExamSoftware.JumpTo | main.py:1477-1493 | a target inside the list becomes the index and is saved; a target outside it changes nothing |
| Engine.ExamSoftware.SubmitExam | main.py:1641-1669 | the unanswered questions' numbers are reported; the exam is scored exactly when none is unanswered or the user confirms, and otherwise nothing changes |
| Engine.ExamSoftware.CalculateExamResult | main.py:1671-1723 | the results hold the correct count, the wrong count as the rest, the earned and total scores and one entry per question; every missed question is added to the wrong set |
| Engine.ExamSoftware.ScoreAll | main.py:1676-1717 | the scoring loop's counters are the correct count and the earned score, its entries those of every question, and the wrong set gains the missed questions |
| Engine.ExamSoftware.JudgeExamQuestion | main.py:1677-1690 | a question is correct exactly when an answer is recorded and equals the stored one; otherwise it is added to the wrong set with its answer, or "" when unanswered |
| Engine.ExamSoftware.AddToWrongQuestions | main.py:2183-2206 | the pair is added with the answer only when absent, and the wrong list is then reloaded; a present pair keeps its first answer and nothing changes |
| Engine.ExamSoftware.InsertRow | main.py:2196-2200 | the new row for an absent pair is added and the uniqueness constraint still holds |
| Engine.ExamSoftware.MarkAsWrong | main.py:2155-2181 | the question is added, with its recorded answer or "", exactly when it was not in the wrong set, and the list is then reloaded |
| Engine.ExamSoftware.RemoveFromWrong | main.py:2466-2473 | the pair's row is deleted, present or not, and the wrong list is reloaded from the table |
| Engine.ExamSoftware.LoadWrongQuestions | main.py:2208-2245 | the wrong list is this bank's rows joined with their questions, newest first, and under UNIQUE(bank, question) it names no question twice |
| Engine.ExamSoftware.PracticeWrongQuestions | main.py:2484-2511 | with an empty wrong list nothing changes; otherwise a copy of its questions is practised from the first question with the answers stored for the wrong mode, and the practised questions have distinct ids |

## Left out

- The Tkinter interface is not modelled: layout, styling, scrolling, the progress-box widgets and colours, option highlighting, and the result and wrong-set views. It is presentation only.
- The map from progress-box ids to indices is not modelled: `JumpTo` takes the target index directly. `Numbering.BoxNumberMatchesDisplay` states which question and number each box stands for.
- The SQLite connection, commits and rollbacks are not modelled, and neither are the `sqlite3.Error` branches (messages, and the fallback random order of the random branch). The tables are the maps of `Database`, and a statement always succeeds.
- Timestamps are not modelled. The wrong rows are kept in insertion order, taken to be the order of their `added_at` times, so `ORDER BY added_at DESC` is newest-inserted first. Answer times are dropped.
- The wrong list is joined with the loaded bank rather than the whole questions table. Rows of a bank only ever name questions of that bank.
- The exam-count configuration entries (`save_exam_config`, `load_exam_config`) are the `examConfig` field only. The last-used bank entry is not modelled.
- Bank loading, bank selection and the Excel import are not modelled; these are file and library I/O. The loaded bank and its id are constructor parameters, the bank's ids are unique (the primary key), and the id is that of a selected bank. So the "no bank selected" guards of the save and load operations are not modelled.
- Questions of an unrecognised type are not modelled: every bank question is 单选, 多选 or 判断 (`QType`). In the code the type is free text (main.py:129, main.py:493). A question of any other type is left out by all three type filters (main.py:626-628, 678-680, 899-909), so it is never practised or examined. Its presence also makes every saved random order shorter than the bank, so the check at main.py:667 always reshuffles and never asks or restores the position. The permutation results (`Ordering.SequenceOrderShape`, `Ordering.RandomOrderShape`, `Engine.ExamSoftware.UseShuffled`) and the reuse branch of `Engine.ExamSoftware.OrderRandomly` rely on the three-type domain.
- `random.shuffle` and `random.sample` are parameters (`Blocks`), constrained by `IsShuffleOf` and `IsExamDraw`. The random distribution is not modelled.
- The `askyesno` confirmations are boolean parameters.
- Scores are `real`: the float conversion and its rounding are not modelled.
- Questions carry only id, type, options, answer and score. Content, analysis, difficulty and the sub-question flag are carried along unchanged by the engine and are dropped, as are the same fields copied into the exam result entries.
- Option letters are Dafny characters, so a question is limited to 0xD800 - 65 options.
- The redraw after each operation is not modelled, except that it saves the current position. This save appears as `SaveCurrentPosition` at the end of the operations that redraw.
- Engine.ExamSoftware.ConfirmExam: models the counts clamped to each type's pool; the code as written is `ExamSampler.ConfirmAsWritten` (see Findings).

## Findings

| source | as written | input that shows it | evidently intended | confidence | as-written member | corrected member |
|---|---|---|---|---|---|---|
| main.py:881-911 | the confirm handler rejects only a zero total and samples each type with the count as typed into the spin box | a bank with 3 single-choice questions and counts 5, 0, 0: `random.sample` raises after the configuration was saved. Counts -1, 0, 0 pass the guard and build an exam with no question | each count clamped to 0..pool, the spin box's own range, before the total is checked and the types are sampled | medium, not executed | ExamSampler.ConfirmAsWrittenCounterexamples | Engine.ExamSoftware.ConfirmExam |
