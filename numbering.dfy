/** Display numbers: questions are numbered continuously across the type
    blocks, Single first, then Multiple, then Judge. */
module Numbering {
  import opened Questions
  import opened Ordering

  /** The number shown for the question at index k: its rank among the
      questions of its type up to and including k, after all questions of
      earlier types. */
  function DisplayNumber(qs: seq<Question>, k: nat): int
    requires k < |qs|
  {
    match qs[k].qtype
    case Single => CountType(qs[..k + 1], Single)
    case Multiple => CountType(qs, Single) + CountType(qs[..k + 1], Multiple)
    case Judge => CountType(qs, Single) + CountType(qs, Multiple) + CountType(qs[..k + 1], Judge)
  }

  /** The first number of a type's run of progress boxes: `single_start`,
      `multiple_start` and `judge_start`. */
  function StartNumber(qs: seq<Question>, t: QType): int
  {
    match t
    case Single => 1
    case Multiple => 1 + CountType(qs, Single)
    case Judge => 1 + CountType(qs, Single) + CountType(qs, Multiple)
  }

  lemma CountTypeStep(qs: seq<Question>, k: nat, t: QType)
    requires k < |qs|
    ensures CountType(qs[..k + 1], t) == CountType(qs[..k], t) + (if qs[k].qtype == t then 1 else 0)
  {
    assert qs[..k + 1] == qs[..k] + [qs[k]];
    OfTypeAppend(qs[..k], [qs[k]], t);
  }

  lemma CountTypeSplit(qs: seq<Question>, k: nat, t: QType)
    requires k <= |qs|
    ensures CountType(qs, t) == CountType(qs[..k], t) + CountType(qs[k..], t)
    ensures OfType(qs, t) == OfType(qs[..k], t) + OfType(qs[k..], t)
  {
    assert qs == qs[..k] + qs[k..];
    OfTypeAppend(qs[..k], qs[k..], t);
  }

  lemma {:induction false} CountTypeNone(qs: seq<Question>, t: QType)
    requires forall q :: q in qs ==> q.qtype != t
    ensures CountType(qs, t) == 0
  {
    if qs != [] {
      assert qs[0] in qs;
      assert forall q :: q in qs[1..] ==> q in qs;
      CountTypeNone(qs[1..], t);
    }
  }

  /** The box a question gets in the progress area shows the same number as
      the question's own header: box i of type t is the question at the
      position where i questions of type t precede it, numbered StartNumber + i. */
  lemma BoxNumberMatchesDisplay(qs: seq<Question>, k: nat)
    requires k < |qs|
    ensures var t := qs[k].qtype; var i := CountType(qs[..k], t);
      i < CountType(qs, t) && OfType(qs, t)[i] == qs[k] &&
      DisplayNumber(qs, k) == StartNumber(qs, t) + i
  {
    var t := qs[k].qtype;
    CountTypeStep(qs, k, t);
    BoxAtCount(qs, k);
  }

  /** The question at k is entry CountType(qs[..k], t) of its type block. */
  lemma BoxAtCount(qs: seq<Question>, k: nat)
    requires k < |qs|
    ensures CountType(qs[..k], qs[k].qtype) < CountType(qs, qs[k].qtype)
    ensures OfType(qs, qs[k].qtype)[CountType(qs[..k], qs[k].qtype)] == qs[k]
  {
    var t := qs[k].qtype;
    var pre, post := OfType(qs[..k], t), OfType(qs[k..], t);
    CountTypeSplit(qs, k, t);
    assert qs[k..][0] == qs[k] && qs[k..][1..] == qs[k + 1..];
    assert post == [qs[k]] + OfType(qs[k + 1..], t);
    assert OfType(qs, t) == pre + post;
    assert (pre + post)[|pre|] == post[0];
  }

  /** A question's number lies in its type's run of boxes, which starts at
      StartNumber and has one box per question of the type. */
  lemma DisplayNumberInRun(qs: seq<Question>, k: nat)
    requires k < |qs|
    ensures StartNumber(qs, qs[k].qtype) <= DisplayNumber(qs, k) < StartNumber(qs, qs[k].qtype) + CountType(qs, qs[k].qtype)
  {
    BoxNumberMatchesDisplay(qs, k);
  }

  /** Every box of a type's run stands for a question: box i of type t shows
      the number of the question of type t that has i questions of type t
      before it. */
  lemma {:induction false} DisplayNumberFillsRun(qs: seq<Question>, t: QType, i: nat)
    requires i < CountType(qs, t)
    ensures exists k :: 0 <= k < |qs| && qs[k].qtype == t && DisplayNumber(qs, k) == StartNumber(qs, t) + i
  {
    assert qs[..|qs|] == qs;
    assert qs[..0] == [];
    var k := 0;
    while CountType(qs[..k + 1], t) <= i
      invariant k < |qs|
      invariant CountType(qs[..k], t) <= i
      decreases |qs| - k
    {
      CountTypeStep(qs, k, t);
      k := k + 1;
    }
    CountTypeStep(qs, k, t);
    BoxNumberMatchesDisplay(qs, k);
  }

  /** Display numbers lie in 1..|qs|. */
  lemma DisplayNumberRange(qs: seq<Question>, k: nat)
    requires k < |qs|
    ensures 1 <= DisplayNumber(qs, k) <= |qs|
  {
    DisplayNumberInRun(qs, k);
    OfTypePartition(qs);
  }

  /** Within one type, a later question has a larger display number. */
  lemma CountTypeIncreases(qs: seq<Question>, i: nat, j: nat)
    requires i < j < |qs| && qs[i].qtype == qs[j].qtype
    ensures CountType(qs[..i], qs[j].qtype) < CountType(qs[..j], qs[j].qtype)
  {
    var t := qs[j].qtype;
    var pre := qs[..j];
    CountTypeSplit(pre, i, t);
    assert pre[..i] == qs[..i];
    assert pre[i..] == [qs[i]] + pre[i + 1..];
    OfTypeAppend([qs[i]], pre[i + 1..], t);
  }

  /** Distinct questions get distinct display numbers; with the range above,
      numbering is a one-to-one map onto 1..|qs|. */
  lemma DisplayNumberInjective(qs: seq<Question>, i: nat, j: nat)
    requires i < j < |qs|
    ensures DisplayNumber(qs, i) != DisplayNumber(qs, j)
  {
    BoxNumberMatchesDisplay(qs, i);
    BoxNumberMatchesDisplay(qs, j);
    if qs[i].qtype == qs[j].qtype {
      CountTypeIncreases(qs, i, j);
    }
  }

  lemma BlockOrderedSplit(qs: seq<Question>, k: nat)
    requires BlockOrdered(qs) && k < |qs|
    ensures forall q :: q in qs[..k] ==> Rank(q.qtype) <= Rank(qs[k].qtype)
    ensures forall q :: q in qs[k..] ==> Rank(q.qtype) >= Rank(qs[k].qtype)
  {
    forall q | q in qs[..k]
      ensures Rank(q.qtype) <= Rank(qs[k].qtype)
    {
      var m :| 0 <= m < k && qs[..k][m] == q;
      assert qs[m] == q;
    }
    forall q | q in qs[k..]
      ensures Rank(q.qtype) >= Rank(qs[k].qtype)
    {
      var m :| 0 <= m < |qs| - k && qs[k..][m] == q;
      assert qs[k + m] == q;
    }
  }

  /** In a block-ordered list (sequential, random and exam modes) the display
      number of the question at index k is k + 1. */
  lemma BlockOrderedNumbering(qs: seq<Question>, k: nat)
    requires BlockOrdered(qs) && k < |qs|
    ensures DisplayNumber(qs, k) == k + 1
  {
    var pre, post := qs[..k], qs[k..];
    BoxNumberMatchesDisplay(qs, k);
    BlockOrderedSplit(qs, k);
    OfTypePartition(pre);
    CountTypeSplit(qs, k, Single);
    CountTypeSplit(qs, k, Multiple);
    match qs[k].qtype
    case Single =>
      CountTypeNone(pre, Multiple);
      CountTypeNone(pre, Judge);
    case Multiple =>
      CountTypeNone(pre, Judge);
      CountTypeNone(post, Single);
    case Judge =>
      CountTypeNone(post, Single);
      CountTypeNone(post, Multiple);
  }

  /** Indices of the questions below n that have no recorded answer, in order. */
  function Unanswered(qs: seq<Question>, answers: map<int, string>, n: nat): (r: seq<nat>)
    requires n <= |qs|
    ensures forall m :: 0 <= m < |r| ==> r[m] < n
  {
    if n == 0 then []
    else Unanswered(qs, answers, n - 1) + (if qs[n - 1].id !in answers then [n - 1] else [])
  }

  /** Every listed index is a position whose question id has no answer. */
  lemma {:induction false} UnansweredSound(qs: seq<Question>, answers: map<int, string>, n: nat)
    requires n <= |qs|
    ensures forall m :: 0 <= m < |Unanswered(qs, answers, n)| ==> qs[Unanswered(qs, answers, n)[m]].id !in answers
  {
    if n > 0 {
      var prev := Unanswered(qs, answers, n - 1);
      UnansweredSound(qs, answers, n - 1);
      if qs[n - 1].id !in answers {
        assert Unanswered(qs, answers, n) == prev + [n - 1];
      } else {
        assert Unanswered(qs, answers, n) == prev;
      }
    }
  }

  /** Every position below n whose question id has no answer is listed. */
  lemma {:induction false} UnansweredComplete(qs: seq<Question>, answers: map<int, string>, n: nat, k: nat)
    requires k < n <= |qs| && qs[k].id !in answers
    ensures k in Unanswered(qs, answers, n)
  {
    var prev := Unanswered(qs, answers, n - 1);
    if k < n - 1 {
      UnansweredComplete(qs, answers, n - 1, k);
    }
    if qs[n - 1].id !in answers {
      assert Unanswered(qs, answers, n) == prev + [n - 1];
    } else {
      assert Unanswered(qs, answers, n) == prev;
    }
  }

  /** The listed indices strictly increase, so each is listed once. */
  lemma {:induction false} UnansweredIncreasing(qs: seq<Question>, answers: map<int, string>, n: nat)
    requires n <= |qs|
    ensures forall a, b :: 0 <= a < b < |Unanswered(qs, answers, n)| ==>
      Unanswered(qs, answers, n)[a] < Unanswered(qs, answers, n)[b]
  {
    if n > 0 {
      var prev := Unanswered(qs, answers, n - 1);
      UnansweredIncreasing(qs, answers, n - 1);
      if qs[n - 1].id !in answers {
        var r := prev + [n - 1];
        assert Unanswered(qs, answers, n) == r;
        forall a, b | 0 <= a < b < |r|
          ensures r[a] < r[b]
        {
          if b == |prev| {
            assert r[a] == prev[a] < n - 1;
          }
        }
      } else {
        assert Unanswered(qs, answers, n) == prev;
      }
    }
  }

  /** The loop of `submit_exam` that lists the display numbers of the
      unanswered questions. */
  method UnansweredNumbers(qs: seq<Question>, answers: map<int, string>) returns (numbers: seq<int>)
    ensures |numbers| == |Unanswered(qs, answers, |qs|)|
    ensures forall m :: 0 <= m < |numbers| ==> numbers[m] == DisplayNumber(qs, Unanswered(qs, answers, |qs|)[m])
  {
    numbers := [];
    var i := 0;
    while i < |qs|
      invariant 0 <= i <= |qs|
      invariant |numbers| == |Unanswered(qs, answers, i)|
      invariant forall m :: 0 <= m < |numbers| ==> numbers[m] == DisplayNumber(qs, Unanswered(qs, answers, i)[m])
    {
      if qs[i].id !in answers {
        numbers := numbers + [DisplayNumber(qs, i)];
      }
      i := i + 1;
    }
  }

  /** The reported numbers are valid, pairwise distinct, and there are none
      exactly when every question has an answer. */
  lemma UnansweredNumbersMeaning(qs: seq<Question>, answers: map<int, string>)
    ensures var u := Unanswered(qs, answers, |qs|);
      (forall m :: 0 <= m < |u| ==> 1 <= DisplayNumber(qs, u[m]) <= |qs|) &&
      (forall a, b :: 0 <= a < b < |u| ==> DisplayNumber(qs, u[a]) != DisplayNumber(qs, u[b])) &&
      (u == [] <==> forall k :: 0 <= k < |qs| ==> qs[k].id in answers)
  {
    var u := Unanswered(qs, answers, |qs|);
    UnansweredSound(qs, answers, |qs|);
    UnansweredIncreasing(qs, answers, |qs|);
    forall k | 0 <= k < |qs| && qs[k].id !in answers
      ensures k in u
    {
      UnansweredComplete(qs, answers, |qs|, k);
    }
    forall m | 0 <= m < |u|
      ensures 1 <= DisplayNumber(qs, u[m]) <= |qs|
    {
      DisplayNumberRange(qs, u[m]);
    }
    forall a, b | 0 <= a < b < |u|
      ensures DisplayNumber(qs, u[a]) != DisplayNumber(qs, u[b])
    {
      DisplayNumberInjective(qs, u[a], u[b]);
    }
    if u != [] {
      assert qs[u[0]].id !in answers;
    }
  }

  /** `list.index(q)`: the first position holding q. */
  function IndexOf(qs: seq<Question>, q: Question): (r: nat)
    requires q in qs
    ensures r < |qs| && qs[r] == q
  {
    if qs[0] == q then 0 else 1 + IndexOf(qs[1..], q)
  }

  /** `list.index` finds the first occurrence: no earlier element equals q. */
  lemma {:induction false} IndexOfFirst(qs: seq<Question>, q: Question)
    requires q in qs
    ensures forall j :: 0 <= j < IndexOf(qs, q) ==> qs[j] != q
  {
    if qs[0] != q {
      IndexOfFirst(qs[1..], q);
    }
  }
}
