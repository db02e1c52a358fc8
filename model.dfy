/** The two tables of the trivia database, the ordering the store keeps,
    and the filtered reads the route handlers issue against it. */
module Model {

  datatype Option<T> = None | Some(value: T)

  /** One row of the `questions` table; also its JSON form, since
      serialising a question copies these five fields unchanged. */
  datatype Question = Question(id: int, question: string, answer: string, category: int, difficulty: int)

  /** One row of the `categories` table; `typeName` is the `type` column. */
  datatype Category = Category(id: int, typeName: string)

  /** The order `order_by(Question.id)` produces: strictly ascending ids. */
  predicate AscendingIds(qs: seq<Question>) {
    forall i, j :: 0 <= i < j < |qs| ==> qs[i].id < qs[j].id
  }

  predicate HasId(qs: seq<Question>, id: int) {
    exists q :: q in qs && q.id == id
  }

  predicate DistinctCategoryIds(cats: seq<Category>) {
    forall i, j :: 0 <= i < j < |cats| ==> cats[i].id != cats[j].id
  }

  /** The rows of `qs` that `keep` accepts, in their original order: what a
      `.filter(...)` query returns. Defined from the back so that a loop that
      appends while scanning forward can be proved against it. */
  function Filter(qs: seq<Question>, keep: Question -> bool): (r: seq<Question>)
    ensures |r| <= |qs|
    ensures forall q :: q in r <==> q in qs && keep(q)
    decreases |qs|
  {
    if qs == [] then []
    else
      var init, last := qs[..|qs| - 1], qs[|qs| - 1];
      assert qs == init + [last];
      if keep(last) then Filter(init, keep) + [last] else Filter(init, keep)
  }

  /** Filtering keeps the ascending-id order of the table. */
  lemma {:induction false} FilterAscending(qs: seq<Question>, keep: Question -> bool)
    requires AscendingIds(qs)
    ensures AscendingIds(Filter(qs, keep))
    decreases |qs|
  {
    if qs != [] {
      var init, last := qs[..|qs| - 1], qs[|qs| - 1];
      FilterAscending(init, keep);
      var r := Filter(init, keep);
      forall x | x in r ensures x.id < last.id {
        var i :| 0 <= i < |init| && init[i] == x;
      }
    }
  }

  /** A filter that accepts every row returns the table unchanged. */
  lemma {:induction false} FilterKeepsAll(qs: seq<Question>, keep: Question -> bool)
    requires forall i :: 0 <= i < |qs| ==> keep(qs[i])
    ensures Filter(qs, keep) == qs
    decreases |qs|
  {
    if qs != [] {
      FilterKeepsAll(qs[..|qs| - 1], keep);
    }
  }

  /** Two filters that agree on every row select the same rows. */
  lemma {:induction false} FilterAgree(qs: seq<Question>, k1: Question -> bool, k2: Question -> bool)
    requires forall i :: 0 <= i < |qs| ==> k1(qs[i]) == k2(qs[i])
    ensures Filter(qs, k1) == Filter(qs, k2)
    decreases |qs|
  {
    if qs != [] {
      FilterAgree(qs[..|qs| - 1], k1, k2);
    }
  }

  /** A filter that accepts fewer rows selects fewer rows, and strictly
      fewer when the table holds a row that only the larger one accepts. */
  lemma {:induction false} FilterShrinks(qs: seq<Question>, wide: Question -> bool, narrow: Question -> bool)
    requires forall i :: 0 <= i < |qs| ==> narrow(qs[i]) ==> wide(qs[i])
    ensures |Filter(qs, narrow)| <= |Filter(qs, wide)|
    ensures (exists i :: 0 <= i < |qs| && wide(qs[i]) && !narrow(qs[i])) ==>
              |Filter(qs, narrow)| < |Filter(qs, wide)|
    decreases |qs|
  {
    if qs != [] {
      var init := qs[..|qs| - 1];
      FilterShrinks(init, wide, narrow);
      if exists i :: 0 <= i < |qs| && wide(qs[i]) && !narrow(qs[i]) {
        var i :| 0 <= i < |qs| && wide(qs[i]) && !narrow(qs[i]);
        if i < |init| {
          assert init[i] == qs[i];
        }
      }
    }
  }

  function KeepCategory(categoryId: int): Question -> bool {
    (q: Question) => q.category == categoryId
  }

  /** `Question.query.filter(Question.category == categoryId)`. */
  function InCategory(qs: seq<Question>, categoryId: int): (r: seq<Question>)
    ensures forall q :: q in r <==> q in qs && q.category == categoryId
  {
    Filter(qs, KeepCategory(categoryId))
  }

  function KeepOtherIds(id: int): Question -> bool {
    (q: Question) => q.id != id
  }

  /** The table after the row with id `id` is deleted. */
  function Without(qs: seq<Question>, id: int): (r: seq<Question>)
    ensures forall q :: q in r <==> q in qs && q.id != id
  {
    Filter(qs, KeepOtherIds(id))
  }

  /** Deleting the row at index `k` of an id-ordered table removes exactly
      that row and keeps every other row, in order. */
  lemma {:induction false} WithoutRemovesOne(qs: seq<Question>, k: int)
    requires AscendingIds(qs) && 0 <= k < |qs|
    ensures Without(qs, qs[k].id) == qs[..k] + qs[k + 1..]
    decreases |qs|
  {
    var id, keep := qs[k].id, KeepOtherIds(qs[k].id);
    var init, last := qs[..|qs| - 1], qs[|qs| - 1];
    assert AscendingIds(init);
    assert Filter(qs, keep) == if keep(last) then Filter(init, keep) + [last] else Filter(init, keep);
    if k == |qs| - 1 {
      forall i | 0 <= i < |init| ensures keep(init[i]) {
        assert init[i].id < last.id;
      }
      FilterKeepsAll(init, keep);
      assert qs[..k] + qs[k + 1..] == init;
    } else {
      assert qs[k].id < last.id;
      assert init[k] == qs[k];
      WithoutRemovesOne(init, k);
      DropBeforeLast(qs, k);
    }
  }

  /** Dropping index `k` of `qs`, for `k` before the last index, is dropping it
      from all but the last element and putting the last one back. */
  lemma DropBeforeLast<T>(qs: seq<T>, k: int)
    requires 0 <= k < |qs| - 1
    ensures qs[..|qs| - 1][..k] + qs[..|qs| - 1][k + 1..] + [qs[|qs| - 1]] == qs[..k] + qs[k + 1..]
  {
  }

  /** `Question.query.get(id)`: the row with that id, if any. */
  function FindQuestion(qs: seq<Question>, id: int): (r: Option<Question>)
    ensures r.Some? ==> r.value in qs && r.value.id == id
    ensures r.None? ==> !HasId(qs, id)
  {
    if qs == [] then None
    else if qs[0].id == id then Some(qs[0])
    else
      var r := FindQuestion(qs[1..], id);
      assert forall q :: q in qs ==> q == qs[0] || q in qs[1..];
      r
  }

  /** `Category.query.get(id)`: the category with that id, if any. */
  function FindCategory(cats: seq<Category>, id: int): (r: Option<Category>)
    ensures r.Some? ==> r.value in cats && r.value.id == id
    ensures r.None? ==> forall c :: c in cats ==> c.id != id
  {
    if cats == [] then None
    else if cats[0].id == id then Some(cats[0])
    else
      var r := FindCategory(cats[1..], id);
      assert forall c :: c in cats ==> c == cats[0] || c in cats[1..];
      r
  }

  /** The dictionary built by assigning `d[c.id] = c.type` for each category
      in turn: a later entry with the same id overwrites an earlier one. */
  function CategoryMapOf(cats: seq<Category>): (m: map<int, string>)
    ensures m.Keys == set c | c in cats :: c.id
    decreases |cats|
  {
    if cats == [] then map[]
    else
      var init, last := cats[..|cats| - 1], cats[|cats| - 1];
      assert cats == init + [last];
      CategoryMapOf(init)[last.id := last.typeName]
  }

  /** With distinct category ids, the dictionary maps each id to its own type. */
  lemma {:induction false} CategoryMapLookup(cats: seq<Category>, i: int)
    requires DistinctCategoryIds(cats) && 0 <= i < |cats|
    ensures cats[i].id in CategoryMapOf(cats)
    ensures CategoryMapOf(cats)[cats[i].id] == cats[i].typeName
    decreases |cats|
  {
    if i < |cats| - 1 {
      CategoryMapLookup(cats[..|cats| - 1], i);
    }
  }

  /** The loop that fills the category dictionary one entry at a time. */
  method CategoryMap(cats: seq<Category>) returns (m: map<int, string>)
    ensures m == CategoryMapOf(cats)
  {
    m := map[];
    for i := 0 to |cats|
      invariant m == CategoryMapOf(cats[..i])
    {
      assert cats[..i + 1][..i] == cats[..i];
      m := m[cats[i].id := cats[i].typeName];
    }
    assert cats[..|cats|] == cats;
  }
}
