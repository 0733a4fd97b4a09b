/** The wrong-question set: the `wrong_questions` table, one row per
    (bank, question) pair, and the list the engine loads from it. */
module WrongSet {
  import opened Questions
  import opened Ordering

  /** A row of the table. Rows are kept in insertion order, which is the
      order of their `added_at` timestamps. */
  datatype WrongRow = WrongRow(bankId: int, questionId: int, userAnswer: string)

  /** The table's UNIQUE(bank_id, question_id) constraint. */
  predicate UniqueKeys(rows: seq<WrongRow>)
  {
    forall i, j :: 0 <= i < j < |rows| ==>
      rows[i].bankId != rows[j].bankId || rows[i].questionId != rows[j].questionId
  }

  /** The answer stored for (b, qid), or None when the pair has no row: what
      the `SELECT ... WHERE bank_id = ? AND question_id = ?` lookups see. */
  function AnswerOf(rows: seq<WrongRow>, b: int, qid: int): (r: Option<string>)
    ensures r.None? <==> forall row :: row in rows ==> row.bankId != b || row.questionId != qid
    ensures r.Some? ==> WrongRow(b, qid, r.value) in rows
  {
    if |rows| == 0 then None
    else if rows[0].bankId == b && rows[0].questionId == qid then Some(rows[0].userAnswer)
    else AnswerOf(rows[1..], b, qid)
  }

  /** Under the uniqueness constraint the lookup returns the pair's one row. */
  lemma AnswerOfUnique(rows: seq<WrongRow>, row: WrongRow)
    requires UniqueKeys(rows) && row in rows
    ensures AnswerOf(rows, row.bankId, row.questionId) == Some(row.userAnswer)
  {
    var v := AnswerOf(rows, row.bankId, row.questionId).value;
    var i :| 0 <= i < |rows| && rows[i] == row;
    var j :| 0 <= j < |rows| && rows[j] == WrongRow(row.bankId, row.questionId, v);
    assert i == j;
  }

  /** The lookup after appending row x: an existing row for the pair wins. */
  function AppendedAnswer(rows: seq<WrongRow>, x: WrongRow, b: int, qid: int): Option<string>
  {
    if AnswerOf(rows, b, qid).Some? then AnswerOf(rows, b, qid)
    else if x.bankId == b && x.questionId == qid then Some(x.userAnswer)
    else None
  }

  lemma {:induction false} AnswerOfAppend(rows: seq<WrongRow>, x: WrongRow, b: int, qid: int)
    ensures AnswerOf(rows + [x], b, qid) == AppendedAnswer(rows, x, b, qid)
  {
    if rows != [] {
      assert (rows + [x])[1..] == rows[1..] + [x];
      AnswerOfAppend(rows[1..], x, b, qid);
    }
  }

  /** add_to_wrong_questions and mark_as_wrong on the table: a row is added
      only when the pair is absent, so the first recorded answer is kept.
      What the lookups see afterwards is stated by InsertSpec. */
  function Insert(rows: seq<WrongRow>, b: int, qid: int, answer: string): (r: seq<WrongRow>)
    ensures |r| == |rows| + (if AnswerOf(rows, b, qid).Some? then 0 else 1)
  {
    if AnswerOf(rows, b, qid).Some? then rows else rows + [WrongRow(b, qid, answer)]
  }

  /** After an insert the pair's answer is the one it had, or the new one
      when it had none; every other pair's lookup is unchanged; and the
      uniqueness constraint still holds. */
  lemma InsertSpec(rows: seq<WrongRow>, b: int, qid: int, answer: string)
    ensures var r := Insert(rows, b, qid, answer);
      && AnswerOf(r, b, qid) == (if AnswerOf(rows, b, qid).Some? then AnswerOf(rows, b, qid) else Some(answer))
      && (forall b', q' :: b' != b || q' != qid ==> AnswerOf(r, b', q') == AnswerOf(rows, b', q'))
      && (UniqueKeys(rows) ==> UniqueKeys(r))
  {
    if AnswerOf(rows, b, qid).None? {
      var x := WrongRow(b, qid, answer);
      forall b', q'
        ensures AnswerOf(rows + [x], b', q') == AppendedAnswer(rows, x, b', q')
      {
        AnswerOfAppend(rows, x, b', q');
      }
    }
  }

  /** remove_from_wrong on the table: every row of the pair is deleted and
      no other row is touched. */
  function Delete(rows: seq<WrongRow>, b: int, qid: int): (r: seq<WrongRow>)
    ensures AnswerOf(r, b, qid).None?
    ensures forall b', q' :: b' != b || q' != qid ==> AnswerOf(r, b', q') == AnswerOf(rows, b', q')
    ensures forall row :: row in r ==> row in rows
    ensures UniqueKeys(rows) ==> UniqueKeys(r)
  {
    if |rows| == 0 then []
    else
      var tail := Delete(rows[1..], b, qid);
      assert forall row :: row in rows[1..] ==> row in rows;
      if rows[0].bankId == b && rows[0].questionId == qid then tail
      else
        assert UniqueKeys(rows) ==> UniqueKeys([rows[0]] + tail) by {
          if UniqueKeys(rows) {
            DeleteHeadUnique(rows, tail);
          }
        }
        [rows[0]] + tail
  }

  lemma DeleteHeadUnique(rows: seq<WrongRow>, tail: seq<WrongRow>)
    requires rows != [] && UniqueKeys(rows) && UniqueKeys(tail)
    requires forall row :: row in tail ==> row in rows[1..]
    ensures UniqueKeys([rows[0]] + tail)
  {
    var r := [rows[0]] + tail;
    forall i, j | 0 <= i < j < |r|
      ensures r[i].bankId != r[j].bankId || r[i].questionId != r[j].questionId
    {
      if i == 0 {
        assert r[j] == tail[j - 1] && r[j] in rows[1..];
        var k :| 0 <= k < |rows| - 1 && rows[1..][k] == r[j];
        assert rows[k + 1] == r[j];
      } else {
        assert r[i] == tail[i - 1] && r[j] == tail[j - 1];
      }
    }
  }

  /** An entry of the loaded wrong list: the joined question, with the Judge
      default options applied, and the answer stored with its row. */
  datatype WrongItem = WrongItem(question: Question, userAnswer: string)

  /** The entry a row contributes: none for another bank's row or for a row
      whose question is not in the bank (the inner join drops it). */
  function ItemFor(row: WrongRow, b: int, bank: seq<Question>): seq<WrongItem>
  {
    if row.bankId != b then []
    else match FindById(bank, row.questionId)
      case None => []
      case Some(q) => [WrongItem(WithJudgeDefault(q), row.userAnswer)]
  }

  /** load_wrong_questions: bank b's rows joined with their questions, most
      recently added first. */
  function WrongList(rows: seq<WrongRow>, b: int, bank: seq<Question>): seq<WrongItem>
  {
    if |rows| == 0 then []
    else ItemFor(rows[|rows| - 1], b, bank) + WrongList(rows[..|rows| - 1], b, bank)
  }

  /** Every row of bank b whose question is in the bank has its entry loaded. */
  lemma {:induction false} WrongListHas(rows: seq<WrongRow>, b: int, bank: seq<Question>, i: nat)
    requires i < |rows| && ItemFor(rows[i], b, bank) != []
    ensures ItemFor(rows[i], b, bank)[0] in WrongList(rows, b, bank)
  {
    var init := rows[..|rows| - 1];
    assert WrongList(rows, b, bank) == ItemFor(rows[|rows| - 1], b, bank) + WrongList(init, b, bank);
    if i < |rows| - 1 {
      assert init[i] == rows[i];
      WrongListHas(init, b, bank, i);
    }
  }

  /** x occurs in s at an earlier position than y. */
  predicate Precedes(s: seq<WrongItem>, x: WrongItem, y: WrongItem)
  {
    exists p, q :: 0 <= p < q < |s| && s[p] == x && s[q] == y
  }

  /** An entry at the head precedes every entry of the rest. */
  lemma PrecedesFromHead(rest: seq<WrongItem>, x: WrongItem, y: WrongItem)
    requires y in rest
    ensures Precedes([x] + rest, x, y)
  {
    var q :| 0 <= q < |rest| && rest[q] == y;
    assert ([x] + rest)[0] == x && ([x] + rest)[1 + q] == y;
  }

  /** Putting entries in front keeps the order of the rest. */
  lemma PrecedesAfterPrefix(head: seq<WrongItem>, rest: seq<WrongItem>, x: WrongItem, y: WrongItem)
    requires Precedes(rest, x, y)
    ensures Precedes(head + rest, x, y)
  {
    var p, q :| 0 <= p < q < |rest| && rest[p] == x && rest[q] == y;
    assert (head + rest)[|head| + p] == x && (head + rest)[|head| + q] == y;
  }

  /** The list is newest first (`ORDER BY added_at DESC`): of two loaded
      rows, the entry of the one added later comes first. */
  lemma {:induction false} WrongListNewestFirst(rows: seq<WrongRow>, b: int, bank: seq<Question>, i: nat, j: nat)
    requires i < j < |rows|
    requires ItemFor(rows[i], b, bank) != [] && ItemFor(rows[j], b, bank) != []
    ensures Precedes(WrongList(rows, b, bank), ItemFor(rows[j], b, bank)[0], ItemFor(rows[i], b, bank)[0])
  {
    var init, head := rows[..|rows| - 1], ItemFor(rows[|rows| - 1], b, bank);
    var rest := WrongList(init, b, bank);
    var itemI, itemJ := ItemFor(rows[i], b, bank)[0], ItemFor(rows[j], b, bank)[0];
    assert WrongList(rows, b, bank) == head + rest;
    assert init[i] == rows[i];
    if j == |rows| - 1 {
      WrongListHas(init, b, bank, i);
      assert head == [itemJ];
      PrecedesFromHead(rest, itemJ, itemI);
    } else {
      assert init[j] == rows[j];
      WrongListNewestFirst(init, b, bank, i, j);
      PrecedesAfterPrefix(head, rest, itemJ, itemI);
    }
  }

  /** Every loaded entry is a question of the bank, stands for a row of bank
      b with its stored answer, and a Judge entry always has options. */
  lemma {:induction false} WrongListSound(rows: seq<WrongRow>, b: int, bank: seq<Question>, item: WrongItem)
    requires item in WrongList(rows, b, bank)
    ensures exists q :: q in bank && item.question == WithJudgeDefault(q)
    ensures WrongRow(b, item.question.id, item.userAnswer) in rows
    ensures item.question.qtype == Judge ==> item.question.options != []
    ensures UniqueKeys(rows) ==> AnswerOf(rows, b, item.question.id) == Some(item.userAnswer)
  {
    var init, last := rows[..|rows| - 1], rows[|rows| - 1];
    assert rows == init + [last];
    if item in ItemFor(last, b, bank) {
      assert FindById(bank, last.questionId).Some?;
    } else {
      WrongListSound(init, b, bank, item);
    }
    if UniqueKeys(rows) {
      AnswerOfUnique(rows, WrongRow(b, item.question.id, item.userAnswer));
    }
  }

  /** Every row of bank b whose question is in the bank is loaded. */
  lemma {:induction false} WrongListComplete(rows: seq<WrongRow>, b: int, bank: seq<Question>, row: WrongRow, q: Question)
    requires row in rows && row.bankId == b && q in bank && q.id == row.questionId
    ensures exists item :: item in WrongList(rows, b, bank) && item.question.id == q.id && item.userAnswer == row.userAnswer
  {
    var init, last := rows[..|rows| - 1], rows[|rows| - 1];
    assert rows == init + [last];
    if row == last {
      var item := ItemFor(last, b, bank)[0];
      assert item in WrongList(rows, b, bank);
    } else {
      WrongListComplete(init, b, bank, row, q);
      var item :| item in WrongList(init, b, bank) && item.question.id == q.id && item.userAnswer == row.userAnswer;
      assert item in WrongList(rows, b, bank);
    }
  }

  predicate DistinctQuestions(w: seq<WrongItem>)
  {
    forall i, j :: 0 <= i < j < |w| ==> w[i].question.id != w[j].question.id
  }

  /** Under the uniqueness constraint no question appears twice in the list. */
  lemma {:induction false} WrongListDistinct(rows: seq<WrongRow>, b: int, bank: seq<Question>)
    requires UniqueKeys(rows)
    ensures DistinctQuestions(WrongList(rows, b, bank))
  {
    if rows != [] {
      var init, last := rows[..|rows| - 1], rows[|rows| - 1];
      var w, head, rest := WrongList(rows, b, bank), ItemFor(last, b, bank), WrongList(init, b, bank);
      assert w == head + rest;
      assert UniqueKeys(init);
      WrongListDistinct(init, b, bank);
      forall i, j | 0 <= i < j < |w|
        ensures w[i].question.id != w[j].question.id
      {
        if i < |head| {
          var it := w[j];
          assert it == rest[j - |head|] && it in rest;
          WrongListSound(init, b, bank, it);
          var k :| 0 <= k < |init| && init[k] == WrongRow(b, it.question.id, it.userAnswer);
          assert rows[k] == init[k] && k < |rows| - 1;
          assert rows[k].bankId != rows[|rows| - 1].bankId || rows[k].questionId != rows[|rows| - 1].questionId;
          assert last.bankId == b && FindById(bank, last.questionId).Some?;
          assert w[i] == head[i] && head[i].question.id == last.questionId;
          assert it.question.id != last.questionId;
        } else {
          assert w[i] == rest[i - |head|] && w[j] == rest[j - |head|];
        }
      }
    }
  }

  /** The loading loop: rows are read in insertion order and each row's entry
      is put in front, which yields the newest-first order of the query. */
  method LoadWrongList(rows: seq<WrongRow>, b: int, bank: seq<Question>) returns (items: seq<WrongItem>)
    ensures items == WrongList(rows, b, bank)
  {
    items := [];
    var i := 0;
    while i < |rows|
      invariant 0 <= i <= |rows|
      invariant items == WrongList(rows[..i], b, bank)
    {
      var row := rows[i];
      var entry: seq<WrongItem> := [];
      if row.bankId == b {
        var found := FindFirst(bank, row.questionId);
        if found.Some? {
          entry := [WrongItem(WithJudgeDefault(found.value), row.userAnswer)];
        }
      }
      assert rows[..i + 1][..i] == rows[..i];
      items := entry + items;
      i := i + 1;
    }
    assert rows[..|rows|] == rows;
  }
}
