/** Presentation orders of a bank: the sequential order, the per-block random
    order and the rebuilding of a saved order from its question ids. */
module Ordering {
  import opened Questions

  /** Every question of an earlier block comes before every question of a
      later block (Single, then Multiple, then Judge). */
  predicate BlockOrdered(qs: seq<Question>)
  {
    forall i, j :: 0 <= i < j < |qs| ==> Rank(qs[i].qtype) <= Rank(qs[j].qtype)
  }

  /** Within one type block ids ascend. */
  predicate SortedWithinBlocks(qs: seq<Question>)
  {
    forall i, j :: 0 <= i < j < |qs| && qs[i].qtype == qs[j].qtype ==> qs[i].id <= qs[j].id
  }

  predicate SortedById(qs: seq<Question>)
  {
    forall i, j :: 0 <= i < j < |qs| ==> qs[i].id <= qs[j].id
  }

  /** Inserts q in front of the first question whose id is not smaller. */
  function InsertById(q: Question, sorted: seq<Question>): (r: seq<Question>)
    ensures multiset(r) == multiset(sorted) + multiset{q}
    ensures |r| == |sorted| + 1
  {
    if |sorted| == 0 then [q]
    else if q.id <= sorted[0].id then [q] + sorted
    else
      assert sorted == [sorted[0]] + sorted[1..];
      [sorted[0]] + InsertById(q, sorted[1..])
  }

  /** The questions of qs ordered by ascending id, by inserting each one
      into the sorted rest. */
  function SortById(qs: seq<Question>): (r: seq<Question>)
    ensures multiset(r) == multiset(qs)
    ensures |r| == |qs|
  {
    if |qs| == 0 then []
    else
      assert qs == [qs[0]] + qs[1..];
      InsertById(qs[0], SortById(qs[1..]))
  }

  lemma {:induction false} InsertByIdSorted(q: Question, sorted: seq<Question>)
    requires SortedById(sorted)
    ensures SortedById(InsertById(q, sorted))
  {
    if sorted != [] && q.id > sorted[0].id {
      InsertByIdSorted(q, sorted[1..]);
      var rest := InsertById(q, sorted[1..]);
      var r := [sorted[0]] + rest;
      forall i, j | 0 <= i < j < |r|
        ensures r[i].id <= r[j].id
      {
        if i == 0 {
          assert r[j] in multiset(rest);
          assert r[j] in multiset(sorted[1..]) + multiset{q};
          if r[j] != q {
            assert r[j] in sorted[1..];
          }
        }
      }
    }
  }

  /** The sort returns the questions sorted by id, as a permutation. */
  lemma {:induction false} SortByIdSorted(qs: seq<Question>)
    ensures SortedById(SortById(qs))
  {
    if qs != [] {
      SortByIdSorted(qs[1..]);
      InsertByIdSorted(qs[0], SortById(qs[1..]));
    }
  }

  /** Sorting questions that already ascend by id changes nothing, as for
      the blocks of a bank loaded with ORDER BY id. */
  lemma {:induction false} SortByIdOfSorted(qs: seq<Question>)
    requires SortedById(qs)
    ensures SortById(qs) == qs
  {
    if qs != [] {
      SortByIdOfSorted(qs[1..]);
      assert qs == [qs[0]] + qs[1..];
    }
  }

  /** Sequential mode: the Single block, then the Multiple block, then the
      Judge block, each sorted by id. */
  function SequenceOrder(bank: seq<Question>): seq<Question>
  {
    SortById(OfType(bank, Single)) + SortById(OfType(bank, Multiple)) + SortById(OfType(bank, Judge))
  }

  /** A block of uniform type placed before blocks of later types. */
  lemma ThreeBlocksOrdered(a: seq<Question>, b: seq<Question>, c: seq<Question>)
    requires forall q :: q in a ==> q.qtype == Single
    requires forall q :: q in b ==> q.qtype == Multiple
    requires forall q :: q in c ==> q.qtype == Judge
    ensures BlockOrdered(a + b + c)
  {
    var s := a + b + c;
    forall i, j | 0 <= i < j < |s|
      ensures Rank(s[i].qtype) <= Rank(s[j].qtype)
    {
      if i < |a| {
        assert s[i] in a;
      } else if i < |a| + |b| {
        assert s[i] in b;
        if j < |a| + |b| {
          assert s[j] in b;
        } else {
          assert s[j] in c;
        }
      } else {
        assert s[i] in c && s[j] in c;
      }
    }
  }

  /** Uniform blocks that each ascend by id ascend by id within blocks once
      concatenated. */
  lemma ThreeBlocksSortedWithin(a: seq<Question>, b: seq<Question>, c: seq<Question>)
    requires forall q :: q in a ==> q.qtype == Single
    requires forall q :: q in b ==> q.qtype == Multiple
    requires forall q :: q in c ==> q.qtype == Judge
    requires SortedById(a) && SortedById(b) && SortedById(c)
    ensures SortedWithinBlocks(a + b + c)
  {
    var s := a + b + c;
    forall i, j | 0 <= i < j < |s|
      ensures s[i].qtype == s[j].qtype ==> s[i].id <= s[j].id
    {
      if j < |a| {
        assert s[i] == a[i] && s[j] == a[j];
      } else if i >= |a| + |b| {
        assert s[i] == c[i - |a| - |b|] && s[j] == c[j - |a| - |b|];
      } else if i >= |a| && j < |a| + |b| {
        assert s[i] == b[i - |a|] && s[j] == b[j - |a|];
      } else if i < |a| {
        assert s[i] in a;
        if j < |a| + |b| {
          assert s[j] in b;
        } else {
          assert s[j] in c;
        }
        assert s[i].qtype != s[j].qtype;
      } else {
        assert s[i] in b && s[j] in c;
        assert s[i].qtype != s[j].qtype;
      }
    }
  }

  lemma OfTypeMembers(qs: seq<Question>, blk: seq<Question>, t: QType)
    requires multiset(blk) == multiset(OfType(qs, t))
    ensures forall q :: q in blk ==> q in qs && q.qtype == t
  {
    OfTypeSound(qs, t);
    forall q | q in blk
      ensures q in qs && q.qtype == t
    {
      assert q in multiset(OfType(qs, t));
    }
  }

  /** The sequential order is block ordered, ascends by id within each block
      and is a permutation of the bank. */
  lemma SequenceOrderShape(bank: seq<Question>)
    ensures BlockOrdered(SequenceOrder(bank))
    ensures SortedWithinBlocks(SequenceOrder(bank))
    ensures multiset(SequenceOrder(bank)) == multiset(bank)
    ensures |SequenceOrder(bank)| == |bank|
  {
    var a, b, c := SortById(OfType(bank, Single)), SortById(OfType(bank, Multiple)), SortById(OfType(bank, Judge));
    OfTypeMembers(bank, a, Single);
    OfTypeMembers(bank, b, Multiple);
    OfTypeMembers(bank, c, Judge);
    ThreeBlocksOrdered(a, b, c);
    SortByIdSorted(OfType(bank, Single));
    SortByIdSorted(OfType(bank, Multiple));
    SortByIdSorted(OfType(bank, Judge));
    ThreeBlocksSortedWithin(a, b, c);
    OfTypePartition(bank);
  }

  /** Order by (block, id); the sequential order ascends in it. */
  predicate KeyLe(p: Question, q: Question)
  {
    Rank(p.qtype) < Rank(q.qtype) || (Rank(p.qtype) == Rank(q.qtype) && p.id <= q.id)
  }

  predicate KeySorted(qs: seq<Question>)
  {
    forall i, j :: 0 <= i < j < |qs| ==> KeyLe(qs[i], qs[j])
  }

  /** Two questions of one bank with the same id are the same question. */
  predicate IdsDetermine(qs: seq<Question>)
  {
    forall p, q :: p in qs && q in qs && p.id == q.id ==> p == q
  }

  lemma KeySortedTail(a: seq<Question>)
    requires KeySorted(a) && a != []
    ensures KeySorted(a[1..])
  {
    forall i, j | 0 <= i < j < |a| - 1
      ensures KeyLe(a[1..][i], a[1..][j])
    {
      assert a[1..][i] == a[i + 1] && a[1..][j] == a[j + 1];
    }
  }

  /** Two key-sorted arrangements of the same questions start alike. */
  lemma KeySortedHeads(a: seq<Question>, b: seq<Question>)
    requires KeySorted(a) && KeySorted(b) && multiset(a) == multiset(b) && IdsDetermine(a)
    requires a != [] && b != []
    ensures a[0] == b[0]
  {
    assert a[0] in multiset(b) && b[0] in multiset(a);
    var k :| 0 <= k < |b| && b[k] == a[0];
    var m :| 0 <= m < |a| && a[m] == b[0];
    assert KeyLe(b[0], a[0]) by {
      if k > 0 { assert KeyLe(b[0], b[k]); }
    }
    assert KeyLe(a[0], b[0]) by {
      if m > 0 { assert KeyLe(a[0], a[m]); }
    }
    assert b[0] in a;
  }

  lemma {:induction false} KeySortedUnique(a: seq<Question>, b: seq<Question>)
    requires KeySorted(a) && KeySorted(b) && multiset(a) == multiset(b) && IdsDetermine(a)
    ensures a == b
  {
    if a == [] {
      assert |multiset(b)| == 0;
    } else {
      assert |multiset(b)| == |a|;
      KeySortedHeads(a, b);
      KeySortedTail(a);
      KeySortedTail(b);
      assert a == [a[0]] + a[1..] && b == [b[0]] + b[1..];
      assert multiset(a) == multiset{a[0]} + multiset(a[1..]);
      assert multiset(b) == multiset{b[0]} + multiset(b[1..]);
      forall x
        ensures multiset(a[1..])[x] == multiset(b[1..])[x]
      {
        assert multiset(a)[x] == multiset(b)[x];
      }
      assert multiset(a[1..]) == multiset(b[1..]);
      assert IdsDetermine(a[1..]) by {
        forall p, q | p in a[1..] && q in a[1..] && p.id == q.id
          ensures p == q
        {
          assert p in a && q in a;
        }
      }
      KeySortedUnique(a[1..], b[1..]);
    }
  }

  lemma BlockSortedIsKeySorted(qs: seq<Question>)
    requires BlockOrdered(qs) && SortedWithinBlocks(qs)
    ensures KeySorted(qs)
  {
    forall i, j | 0 <= i < j < |qs|
      ensures KeyLe(qs[i], qs[j])
    {
      if Rank(qs[i].qtype) == Rank(qs[j].qtype) {
        assert qs[i].qtype == qs[j].qtype;
      }
    }
  }

  /** The sequential order is the one arrangement of the bank that is block
      ordered and ascends by id within blocks: it is determined by the bank
      alone. */
  lemma SequenceOrderUnique(bank: seq<Question>, o: seq<Question>)
    requires UniqueIds(bank)
    requires BlockOrdered(o) && SortedWithinBlocks(o) && multiset(o) == multiset(bank)
    ensures o == SequenceOrder(bank)
  {
    SequenceOrderShape(bank);
    BlockSortedIsKeySorted(o);
    BlockSortedIsKeySorted(SequenceOrder(bank));
    forall p, q | p in o && q in o && p.id == q.id
      ensures p == q
    {
      assert p in multiset(bank) && q in multiset(bank);
      var i :| 0 <= i < |bank| && bank[i] == p;
      var j :| 0 <= j < |bank| && bank[j] == q;
      assert i == j;
    }
    KeySortedUnique(o, SequenceOrder(bank));
  }

  /** The three type blocks after `random.shuffle` (or `random.sample`). */
  datatype Blocks = Blocks(single: seq<Question>, multiple: seq<Question>, judge: seq<Question>)
  {
    /** The practice list the blocks make: Single, then Multiple, then Judge. */
    function Concat(): seq<Question>
    {
      single + multiple + judge
    }
  }

  /** Each block is a permutation of the bank's questions of its type, as
      `random.shuffle` leaves it. */
  predicate IsShuffleOf(b: Blocks, bank: seq<Question>)
  {
    && multiset(b.single) == multiset(OfType(bank, Single))
    && multiset(b.multiple) == multiset(OfType(bank, Multiple))
    && multiset(b.judge) == multiset(OfType(bank, Judge))
  }

  /** A random order keeps the block order, permutes only within blocks and is
      a permutation of the bank. */
  lemma RandomOrderShape(b: Blocks, bank: seq<Question>)
    requires IsShuffleOf(b, bank)
    ensures BlockOrdered(b.Concat())
    ensures multiset(b.Concat()) == multiset(bank)
    ensures OfType(b.Concat(), Single) == b.single
    ensures OfType(b.Concat(), Multiple) == b.multiple
    ensures OfType(b.Concat(), Judge) == b.judge
  {
    OfTypeMembers(bank, b.single, Single);
    OfTypeMembers(bank, b.multiple, Multiple);
    OfTypeMembers(bank, b.judge, Judge);
    ThreeBlocksOrdered(b.single, b.multiple, b.judge);
    OfTypePartition(bank);
    OfTypeOfBlocks(b.single, b.multiple, b.judge);
  }

  lemma OfTypeOfBlocks(a: seq<Question>, b: seq<Question>, c: seq<Question>)
    requires forall q :: q in a ==> q.qtype == Single
    requires forall q :: q in b ==> q.qtype == Multiple
    requires forall q :: q in c ==> q.qtype == Judge
    ensures OfType(a + b + c, Single) == a
    ensures OfType(a + b + c, Multiple) == b
    ensures OfType(a + b + c, Judge) == c
  {
    OfTypeOfUniform(a, Single);
    OfTypeOfUniform(b, Multiple);
    OfTypeOfUniform(c, Judge);
    OfTypeAppendNone(a + b, c, Single);
    OfTypeAppendNone(a, b, Single);
    OfTypeAppendNone(a + b, c, Multiple);
    OfTypePrependNone(a, b, Multiple);
    OfTypeAppendNone(a, b, Judge);
    OfTypePrependNone(a + b, c, Judge);
  }

  /** Appending questions none of which has type t leaves the type-t block as it was. */
  lemma OfTypeAppendNone(a: seq<Question>, b: seq<Question>, t: QType)
    requires OfType(b, t) == []
    ensures OfType(a + b, t) == OfType(a, t)
  {
    OfTypeAppend(a, b, t);
    assert OfType(a, t) + OfType(b, t) == OfType(a, t);
  }

  /** Prepending questions none of which has type t leaves the type-t block as it was. */
  lemma OfTypePrependNone(a: seq<Question>, b: seq<Question>, t: QType)
    requires OfType(a, t) == []
    ensures OfType(a + b, t) == OfType(b, t)
  {
    OfTypeAppend(a, b, t);
    assert OfType(a, t) + OfType(b, t) == OfType(b, t);
  }

  /** The saved order's ids turned back into questions, skipping ids the bank
      no longer has. */
  function LookupAll(ids: seq<int>, bank: seq<Question>): (r: seq<Question>)
    ensures |r| <= |ids|
    ensures forall q :: q in r ==> q in bank
  {
    if |ids| == 0 then []
    else
      LookupAll(ids[..|ids| - 1], bank) +
      match FindById(bank, ids[|ids| - 1])
      case Some(q) => [q]
      case None => []
  }

  /** When every saved id is still in the bank, the rebuilt order has exactly
      the saved ids, in the saved order. */
  lemma {:induction false} LookupAllIds(ids: seq<int>, bank: seq<Question>)
    requires forall id :: id in ids ==> exists q :: q in bank && q.id == id
    ensures Ids(LookupAll(ids, bank)) == ids
  {
    if ids != [] {
      var init := ids[..|ids| - 1];
      var last := ids[|ids| - 1];
      assert ids == init + [last];
      assert forall id :: id in init ==> id in ids;
      LookupAllIds(init, bank);
      assert last in ids;
      var q :| q in bank && q.id == last;
      assert FindById(bank, last).Some?;
      var r := LookupAll(init, bank) + [FindById(bank, last).value];
      assert Ids(r) == Ids(LookupAll(init, bank)) + [last];
    }
  }

  /** A saved order written from questions of the bank is rebuilt unchanged. */
  lemma {:induction false} LookupAllOfIds(qs: seq<Question>, bank: seq<Question>)
    requires UniqueIds(bank)
    requires forall q :: q in qs ==> q in bank
    ensures LookupAll(Ids(qs), bank) == qs
  {
    if qs != [] {
      var init, last, ids := qs[..|qs| - 1], qs[|qs| - 1], Ids(qs);
      assert qs == init + [last];
      assert ids[..|ids| - 1] == Ids(init);
      assert forall q :: q in init ==> q in qs;
      LookupAllOfIds(init, bank);
      assert last in bank;
      var k :| 0 <= k < |bank| && bank[k] == last;
      FindByIdAt(bank, k);
      assert LookupAll(ids, bank) == LookupAll(Ids(init), bank) + [last];
    }
  }

  /** The inner loop of the random branch: the first bank question whose id
      is qid, leaving the loop at the first match. */
  method FindFirst(bank: seq<Question>, qid: int) returns (r: Option<Question>)
    ensures r == FindById(bank, qid)
  {
    var j := 0;
    while j < |bank|
      invariant 0 <= j <= |bank|
      invariant FindById(bank, qid) == FindById(bank[j..], qid)
    {
      if bank[j].id == qid {
        return Some(bank[j]);
      }
      assert bank[j..] == [bank[j]] + bank[j + 1..];
      j := j + 1;
    }
    return None;
  }

  /** The loop of the random branch that reuses a saved order: for every
      saved id, the first bank question with that id, if any. */
  method RebuildOrder(saved: seq<int>, bank: seq<Question>) returns (qs: seq<Question>)
    ensures qs == LookupAll(saved, bank)
  {
    qs := [];
    var i := 0;
    while i < |saved|
      invariant 0 <= i <= |saved|
      invariant qs == LookupAll(saved[..i], bank)
    {
      var found := FindFirst(bank, saved[i]);
      if found.Some? {
        qs := qs + [found.value];
      }
      assert saved[..i + 1][..i] == saved[..i];
      i := i + 1;
    }
    assert saved[..|saved|] == saved;
  }
}
