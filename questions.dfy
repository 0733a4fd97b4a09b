/** Questions of a bank, the three question types and the answer encodings the
    practice screen produces. */
module Questions {

  datatype Option<T> = None | Some(value: T)

  /** The type column: "单选" (single choice), "多选" (multiple choice) and
      "判断" (true/false judgement). */
  datatype QType = Single | Multiple | Judge

  /** The `mode` string of a session; NoMode is the empty string the engine
      holds before any session has been started. */
  datatype Mode = NoMode | Sequence | Random | Exam | Wrong

  /** One row of the questions table. The score column is REAL. */
  datatype Question = Question(id: int, qtype: QType, options: seq<string>, answer: string, score: real)

  /** Position of a type in the fixed block order Single, Multiple, Judge. */
  function Rank(t: QType): nat
  {
    match t
    case Single => 0
    case Multiple => 1
    case Judge => 2
  }

  /** The questions of type t, in their order in qs: the type filter of the
      practice and exam lists. */
  function OfType(qs: seq<Question>, t: QType): (r: seq<Question>)
    ensures |r| <= |qs|
  {
    if |qs| == 0 then [] else (if qs[0].qtype == t then [qs[0]] else []) + OfType(qs[1..], t)
  }

  /** The type filter keeps only questions of qs of type t. */
  lemma {:induction false} OfTypeSound(qs: seq<Question>, t: QType)
    ensures forall q :: q in OfType(qs, t) ==> q in qs && q.qtype == t
  {
    if |qs| > 0 {
      OfTypeSound(qs[1..], t);
    }
  }

  /** How many questions of qs have type t. */
  function CountType(qs: seq<Question>, t: QType): nat
  {
    |OfType(qs, t)|
  }

  /** The type filter keeps exactly the questions of type t, each as often as in qs. */
  lemma {:induction false} OfTypeMultiset(qs: seq<Question>, t: QType, q: Question)
    ensures multiset(OfType(qs, t))[q] == if q.qtype == t then multiset(qs)[q] else 0
  {
    if qs != [] {
      OfTypeMultiset(qs[1..], t, q);
      assert qs == [qs[0]] + qs[1..];
    }
  }

  lemma {:induction false} OfTypeAppend(a: seq<Question>, b: seq<Question>, t: QType)
    ensures OfType(a + b, t) == OfType(a, t) + OfType(b, t)
  {
    if a == [] {
      assert a + b == b;
    } else {
      assert (a + b)[1..] == a[1..] + b;
      OfTypeAppend(a[1..], b, t);
    }
  }

  /** The three type blocks together are a partition of the questions. */
  lemma OfTypePartition(qs: seq<Question>)
    ensures multiset(OfType(qs, Single)) + multiset(OfType(qs, Multiple)) + multiset(OfType(qs, Judge)) == multiset(qs)
    ensures CountType(qs, Single) + CountType(qs, Multiple) + CountType(qs, Judge) == |qs|
  {
    forall q
      ensures (multiset(OfType(qs, Single)) + multiset(OfType(qs, Multiple)) + multiset(OfType(qs, Judge)))[q] == multiset(qs)[q]
    {
      OfTypeMultiset(qs, Single, q);
      OfTypeMultiset(qs, Multiple, q);
      OfTypeMultiset(qs, Judge, q);
    }
    assert multiset(OfType(qs, Single)) + multiset(OfType(qs, Multiple)) + multiset(OfType(qs, Judge)) == multiset(qs);
    assert |multiset(OfType(qs, Single)) + multiset(OfType(qs, Multiple)) + multiset(OfType(qs, Judge))| == |multiset(qs)|;
  }

  /** A sequence with the type of every element fixed is its own type block. */
  lemma {:induction false} OfTypeOfUniform(qs: seq<Question>, t: QType)
    requires forall q :: q in qs ==> q.qtype == t
    ensures OfType(qs, t) == qs
    ensures forall u :: u != t ==> OfType(qs, u) == []
  {
    if qs != [] {
      OfTypeOfUniform(qs[1..], t);
    }
  }

  /** Question ids are the table's INTEGER PRIMARY KEY. */
  predicate UniqueIds(qs: seq<Question>)
  {
    forall i, j :: 0 <= i < j < |qs| ==> qs[i].id != qs[j].id
  }

  /** The ids of a question list, position by position, as save_question_order
      writes them; distinct questions give distinct ids. */
  function Ids(qs: seq<Question>): (r: seq<int>)
    ensures UniqueIds(qs) ==> forall i, j :: 0 <= i < j < |r| ==> r[i] != r[j]
  {
    seq(|qs|, i requires 0 <= i < |qs| => qs[i].id)
  }

  /** The first question of `bank` whose id is `id`, as the inner `for q in
      self.question_bank: if q["id"] == qid` loop finds it. */
  function FindById(bank: seq<Question>, id: int): (r: Option<Question>)
    ensures r.Some? ==> r.value in bank && r.value.id == id
    ensures r.None? <==> forall q :: q in bank ==> q.id != id
  {
    if |bank| == 0 then None
    else if bank[0].id == id then Some(bank[0])
    else FindById(bank[1..], id)
  }

  /** With unique ids the question found is the one at the id's position. */
  lemma {:induction false} FindByIdAt(bank: seq<Question>, k: nat)
    requires UniqueIds(bank) && k < |bank|
    ensures FindById(bank, bank[k].id) == Some(bank[k])
  {
    if k > 0 {
      assert bank[0].id != bank[k].id;
      assert bank[1..][k - 1] == bank[k];
      FindByIdAt(bank[1..], k - 1);
    }
  }

  // ---------------------------------------------------------------------------
  // Options

  const JudgeOptions: seq<string> := ["正确", "错误"]

  /** A Judge question stored without options gets the two options "正确"
      (correct) and "错误" (wrong); every other question keeps its options. */
  function WithJudgeDefault(q: Question): (r: Question)
    ensures r.id == q.id && r.qtype == q.qtype && r.answer == q.answer && r.score == q.score
    ensures r.qtype == Judge ==> r.options != []
    ensures q.qtype == Judge && q.options == [] ==> r.options == JudgeOptions
    ensures q.qtype != Judge || q.options != [] ==> r == q
  {
    if q.qtype == Judge && q.options == [] then q.(options := JudgeOptions) else q
  }

  /** Option letters are `chr(65 + i)`; Dafny's char stops short of the
      surrogate range, which bounds the number of options modelled. */
  const MaxOptions: nat := 0xD800 - 65

  function Letter(i: nat): (c: char)
    requires i < MaxOptions
    ensures c as int == 65 + i
  {
    (65 + i) as char
  }

  /** The value a radio button stands for: the option text itself for a Judge
      question, its letter otherwise. */
  function RadioValue(q: Question, i: nat): (v: string)
    requires i < |q.options| && i < MaxOptions
    ensures q.qtype == Judge ==> v == q.options[i]
    ensures q.qtype != Judge ==> |v| == 1 && v[0] as int == 65 + i
  {
    if q.qtype == Judge then q.options[i] else [Letter(i)]
  }

  /** For Single questions distinct radio buttons stand for distinct answers. */
  lemma SingleRadioValuesDistinct(q: Question, i: nat, j: nat)
    requires q.qtype == Single && i < |q.options| && j < |q.options| && i < MaxOptions && j < MaxOptions
    requires RadioValue(q, i) == RadioValue(q, j)
    ensures i == j
  {
    assert RadioValue(q, i)[0] == RadioValue(q, j)[0];
  }

  /** The letters of the ticked boxes from index `from` on, in option order. */
  function CheckedLetters(checks: seq<bool>, from: nat): string
    requires from <= |checks| <= MaxOptions
    decreases |checks| - from
  {
    if from == |checks| then ""
    else (if checks[from] then [Letter(from)] else "") + CheckedLetters(checks, from + 1)
  }

  /** The answer a Multiple question records: the letters of the ticked
      boxes, joined in option order. */
  function MultipleAnswer(checks: seq<bool>): string
    requires |checks| <= MaxOptions
  {
    CheckedLetters(checks, 0)
  }

  predicate StrictlyIncreasing(s: string)
  {
    forall i, j :: 0 <= i < j < |s| ==> s[i] < s[j]
  }

  /** A canonical multiple-choice answer for n options: distinct option
      letters in option order. */
  predicate Canonical(s: string, n: nat)
  {
    StrictlyIncreasing(s) && forall c :: c in s ==> 65 <= c as int < 65 + n
  }

  lemma {:induction false} CheckedLettersShape(checks: seq<bool>, from: nat)
    requires from <= |checks| <= MaxOptions
    ensures StrictlyIncreasing(CheckedLetters(checks, from))
    ensures forall c :: c in CheckedLetters(checks, from) ==> 65 + from <= c as int < 65 + |checks|
    ensures forall i :: 0 <= i < |checks| ==> (Letter(i) in CheckedLetters(checks, from) <==> from <= i && checks[i])
    decreases |checks| - from
  {
    if from < |checks| {
      CheckedLettersShape(checks, from + 1);
      var rest := CheckedLetters(checks, from + 1);
      var head: string := if checks[from] then [Letter(from)] else "";
      var s := head + rest;
      assert CheckedLetters(checks, from) == s;
      forall i | 0 <= i < |checks|
        ensures Letter(i) in s <==> from <= i && checks[i]
      {
        assert Letter(i) in s <==> Letter(i) in head || Letter(i) in rest;
      }
      forall i, j | 0 <= i < j < |s|
        ensures s[i] < s[j]
      {
        assert s[j] == rest[j - |head|] && s[j] in rest;
        if i >= |head| {
          assert s[i] == rest[i - |head|];
        }
      }
    }
  }

  /** The encoded answer is canonical: ticked letters, each once, in option order. */
  lemma MultipleAnswerCanonical(checks: seq<bool>)
    requires |checks| <= MaxOptions
    ensures Canonical(MultipleAnswer(checks), |checks|)
    ensures forall i :: 0 <= i < |checks| ==> (Letter(i) in MultipleAnswer(checks) <==> checks[i])
    ensures MultipleAnswer(checks) == "" <==> forall i :: 0 <= i < |checks| ==> !checks[i]
  {
    CheckedLettersShape(checks, 0);
    var a := MultipleAnswer(checks);
    if a != "" {
      assert a[0] in a;
      var i := a[0] as int - 65;
      assert Letter(i) == a[0];
    }
  }

  /** Re-ticking the boxes of a saved answer: `var.set(char in user_answer)`. */
  function RestoreChecks(answer: string, n: nat): (checks: seq<bool>)
    requires n <= MaxOptions
    ensures |checks| == n
  {
    seq(n, i requires 0 <= i < n => Letter(i) in answer)
  }

  /** Restoring the boxes from the answer they produced gives the same boxes. */
  lemma RestoreAfterEncode(checks: seq<bool>)
    requires |checks| <= MaxOptions
    ensures RestoreChecks(MultipleAnswer(checks), |checks|) == checks
  {
    MultipleAnswerCanonical(checks);
  }

  /** Two strictly increasing strings with the same characters are equal. */
  lemma {:induction false} StrictlyIncreasingUnique(s: string, t: string)
    requires StrictlyIncreasing(s) && StrictlyIncreasing(t)
    requires forall c :: c in s <==> c in t
    ensures s == t
  {
    assert s != [] ==> s[0] in t;
    assert t != [] ==> t[0] in s;
    if s != [] && t != [] {
      assert s[0] in t;
      assert t[0] in s;
      assert s[0] == t[0];
      forall c
        ensures c in s[1..] <==> c in t[1..]
      {
        if c in s[1..] {
          var k :| 1 <= k < |s| && s[k] == c;
          assert c in t && c != t[0];
        }
        if c in t[1..] {
          var k :| 1 <= k < |t| && t[k] == c;
          assert c in s && c != s[0];
        }
      }
      StrictlyIncreasingUnique(s[1..], t[1..]);
      assert s == [s[0]] + s[1..] && t == [t[0]] + t[1..];
    }
  }

  /** Encoding the boxes restored from a canonical answer gives that answer back:
      for canonical answers, exact string equality is equality of box sets. */
  lemma EncodeAfterRestore(answer: string, n: nat)
    requires n <= MaxOptions && Canonical(answer, n)
    ensures MultipleAnswer(RestoreChecks(answer, n)) == answer
  {
    var checks := RestoreChecks(answer, n);
    MultipleAnswerCanonical(checks);
    var a := MultipleAnswer(checks);
    forall c
      ensures c in a <==> c in answer
    {
      if c in answer {
        assert Letter(c as int - 65) == c;
      }
      if c in a {
        assert Letter(c as int - 65) == c;
      }
    }
    StrictlyIncreasingUnique(a, answer);
  }

  /** The current widget state of the question screen: the radio variable and
      the check boxes. */
  datatype Selection = Selection(radio: string, checks: seq<bool>)

  /** `get_user_answer`: the radio value for Single and Judge questions, the
      ticked letters for Multiple questions. */
  function UserAnswer(t: QType, sel: Selection): (r: string)
    requires |sel.checks| <= MaxOptions
    ensures t != Multiple ==> r == sel.radio
    ensures t == Multiple ==> Canonical(r, |sel.checks|)
    ensures t == Multiple ==> (r == "" <==> forall i :: 0 <= i < |sel.checks| ==> !sel.checks[i])
  {
    MultipleAnswerCanonical(sel.checks);
    match t
    case Single => sel.radio
    case Judge => sel.radio
    case Multiple => MultipleAnswer(sel.checks)
  }
}
