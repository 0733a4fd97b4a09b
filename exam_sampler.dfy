/** Exam sampling: the per-type counts and what a draw of distinct questions
    from each type block must satisfy. */
module ExamSampler {
  import opened Questions
  import opened Ordering

  /** How many questions of each type an exam asks for. */
  datatype ExamConfig = ExamConfig(single: int, multiple: int, judge: int)
  {
    function Total(): int
    {
      single + multiple + judge
    }
  }

  /** The configuration used before any exam was set up. */
  const DefaultConfig := ExamConfig(10, 5, 10)

  /** A requested count brought into the spin box's range 0..pool. The bound
      k <= pool is what lets `Clamped` counts be drawn from each type's pool
      without `random.sample` failing. */
  function ClampCount(requested: int, pool: nat): (k: nat)
    ensures k <= pool
    ensures requested <= 0 ==> k == 0
    ensures 0 <= requested <= pool ==> k == requested
    ensures requested >= pool ==> k == pool
  {
    if requested <= 0 then 0 else if requested > pool then pool else requested
  }

  /** Each count clamped to the number of questions of its type in the bank. */
  function Clamped(c: ExamConfig, bank: seq<Question>): ExamConfig
  {
    ExamConfig(
      ClampCount(c.single, CountType(bank, Single)),
      ClampCount(c.multiple, CountType(bank, Multiple)),
      ClampCount(c.judge, CountType(bank, Judge)))
  }

  /** `random.sample(pool, k)`: k questions taken from the pool, none more
      often than the pool holds it. */
  predicate IsSample(draw: seq<Question>, pool: seq<Question>, k: int)
  {
    |draw| == k && multiset(draw) <= multiset(pool)
  }

  /** A draw per type block for the clamped counts of c. */
  predicate IsExamDraw(d: Blocks, bank: seq<Question>, c: ExamConfig)
  {
    var k := Clamped(c, bank);
    && IsSample(d.single, OfType(bank, Single), k.single)
    && IsSample(d.multiple, OfType(bank, Multiple), k.multiple)
    && IsSample(d.judge, OfType(bank, Judge), k.judge)
  }

  lemma SubMultisetMembers(a: seq<Question>, b: seq<Question>)
    requires multiset(a) <= multiset(b)
    ensures forall q :: q in a ==> q in b
  {
    forall q | q in a
      ensures q in b
    {
      assert q in multiset(a);
    }
  }

  /** With unique ids, no question occurs twice and an id names one question. */
  lemma {:induction false} UniqueIdsSingletons(bank: seq<Question>)
    requires UniqueIds(bank)
    ensures forall x :: multiset(bank)[x] <= 1
    ensures forall p, q :: p in bank && q in bank && p.id == q.id ==> p == q
  {
    if bank != [] {
      var rest := bank[1..];
      assert bank == [bank[0]] + rest;
      assert UniqueIds(rest) by {
        forall i, j | 0 <= i < j < |rest|
          ensures rest[i].id != rest[j].id
        {
          assert rest[i] == bank[i + 1] && rest[j] == bank[j + 1];
        }
      }
      UniqueIdsSingletons(rest);
      forall k | 0 <= k < |rest|
        ensures rest[k] != bank[0]
      {
        assert rest[k] == bank[k + 1];
      }
      assert bank[0] !in rest;
    }
    forall p, q | p in bank && q in bank && p.id == q.id
      ensures p == q
    {
      var i :| 0 <= i < |bank| && bank[i] == p;
      var j :| 0 <= j < |bank| && bank[j] == q;
      assert i == j;
    }
  }

  /** A value at two positions occurs at least twice. */
  lemma RepeatCounts(d: seq<Question>, i: nat, j: nat)
    requires i < j < |d|
    ensures d[i] == d[j] ==> multiset(d)[d[i]] >= 2
  {
    assert d == d[..j] + d[j..];
    assert d[i] in d[..j] && d[j] in d[j..];
  }

  /** Taking part of a bank with unique ids keeps the ids unique. */
  lemma SubMultisetUnique(d: seq<Question>, bank: seq<Question>)
    requires UniqueIds(bank) && multiset(d) <= multiset(bank)
    ensures UniqueIds(d)
  {
    UniqueIdsSingletons(bank);
    SubMultisetMembers(d, bank);
    forall i, j | 0 <= i < j < |d|
      ensures d[i].id != d[j].id
    {
      RepeatCounts(d, i, j);
      assert multiset(d)[d[i]] <= multiset(bank)[d[i]];
      assert d[i] in bank && d[j] in bank;
    }
  }

  /** The exam built from a draw: block-ordered Single, Multiple, Judge, each
      block exactly the draw of its type, distinct questions of the bank, and
      as many as the clamped counts add up to. */
  lemma ExamDrawShape(d: Blocks, bank: seq<Question>, c: ExamConfig)
    requires UniqueIds(bank) && IsExamDraw(d, bank, c)
    ensures var qs := d.Concat();
      && BlockOrdered(qs)
      && OfType(qs, Single) == d.single
      && OfType(qs, Multiple) == d.multiple
      && OfType(qs, Judge) == d.judge
      && UniqueIds(qs)
      && multiset(qs) <= multiset(bank)
      && |qs| == Clamped(c, bank).Total()
  {
    SubMultisetMembers(d.single, OfType(bank, Single));
    SubMultisetMembers(d.multiple, OfType(bank, Multiple));
    SubMultisetMembers(d.judge, OfType(bank, Judge));
    OfTypeSound(bank, Single);
    OfTypeSound(bank, Multiple);
    OfTypeSound(bank, Judge);
    ThreeBlocksOrdered(d.single, d.multiple, d.judge);
    OfTypeOfBlocks(d.single, d.multiple, d.judge);
    OfTypePartition(bank);
    assert multiset(d.Concat()) == multiset(d.single) + multiset(d.multiple) + multiset(d.judge);
    SubMultisetUnique(d.Concat(), bank);
  }

  // ---------------------------------------------------------------------------
  // The confirm handler as written: counts are used as typed

  /** Outcome of the handler: the "select at least one question" warning, an
      exam list, or `random.sample` raising after the configuration was saved
      and part of the list was built. */
  datatype AsWrittenOutcome = Warned | Built(questions: seq<Question>) | Raised(partial: seq<Question>)

  /** One `random.sample(pool, k) if k > 0 else []` step; None when the
      sample raises because k exceeds the pool. */
  function SampleAsWritten(pool: seq<Question>, k: int, draw: seq<Question>): Option<seq<Question>>
  {
    if k <= 0 then Some([]) else if k > |pool| then None else Some(draw)
  }

  /** Some count asks for more questions than its type has in the bank. */
  predicate OverPool(c: ExamConfig, bank: seq<Question>)
  {
    c.single > CountType(bank, Single) || c.multiple > CountType(bank, Multiple) || c.judge > CountType(bank, Judge)
  }

  /** confirm_create_exam as written: the warning only for a zero total,
      `random.sample` raising exactly when some count exceeds its pool, and,
      for counts already in the spin boxes' ranges, the same exam the clamped
      handler builds. */
  function ConfirmAsWritten(c: ExamConfig, bank: seq<Question>, d: Blocks): (r: AsWrittenOutcome)
    ensures r.Warned? <==> c.Total() == 0
    ensures r.Raised? <==> (c.Total() != 0 && OverPool(c, bank))
    ensures c.Total() != 0 && Clamped(c, bank) == c && IsExamDraw(d, bank, c) ==> r == Built(d.Concat())
  {
    if c.Total() == 0 then Warned
    else match SampleAsWritten(OfType(bank, Single), c.single, d.single)
      case None => Raised([])
      case Some(s) =>
        match SampleAsWritten(OfType(bank, Multiple), c.multiple, d.multiple)
        case None => Raised(s)
        case Some(m) =>
          match SampleAsWritten(OfType(bank, Judge), c.judge, d.judge)
          case None => Raised(s + m)
          case Some(j) => Built(s + m + j)
  }

  /** Two inputs the guard `single + multiple + judge == 0` lets through: five
      Single questions asked of a bank holding three makes the sample raise,
      and counts -1, 0, 0 build an exam with no question. Clamped, the first
      asks for the three questions there are and the second is rejected like
      an all-zero request. */
  lemma ConfirmAsWrittenCounterexamples(d: Blocks)
    ensures var bank := [
        Question(1, Single, ["a", "b"], "A", 1.0),
        Question(2, Single, ["a", "b"], "A", 1.0),
        Question(3, Single, ["a", "b"], "A", 1.0)];
      && ConfirmAsWritten(ExamConfig(5, 0, 0), bank, d) == Raised([])
      && Clamped(ExamConfig(5, 0, 0), bank) == ExamConfig(3, 0, 0)
      && ConfirmAsWritten(ExamConfig(-1, 0, 0), bank, d) == Built([])
      && Clamped(ExamConfig(-1, 0, 0), bank).Total() == 0
  {
    var bank := [
        Question(1, Single, ["a", "b"], "A", 1.0),
        Question(2, Single, ["a", "b"], "A", 1.0),
        Question(3, Single, ["a", "b"], "A", 1.0)];
    OfTypeOfUniform(bank, Single);
  }
}
