/**
 * The category service: an array of categories keyed by `Id`, with lookup,
 * creation, patching and deletion. Categories carry no timestamps.
 */
module CategoryStore {
  import opened Wrappers
  import opened Records
  import Text
  import Seqs
  import Store

  /** What a caller passes to `create`. */
  datatype CategoryInput = CategoryInput(name: string, color: Option<string>, taskCount: Option<int>)

  /** What a caller passes to `update`: `None` leaves a field alone. */
  datatype CategoryPatch = CategoryPatch(Id: Option<int>, name: Option<string>, color: Option<string>, taskCount: Option<int>)

  const EmptyPatch := CategoryPatch(None, None, None, None)

  function IndexOf(categories: seq<Category>, id: int): Option<nat> {
    Store.FindIndex(categories, CategoryId, id)
  }

  /** No category in `categories` has `id`. */
  predicate Absent(categories: seq<Category>, id: int) {
    forall c :: c in categories ==> c.Id != id
  }

  lemma IndexOfAbsent(categories: seq<Category>, id: int)
    ensures IndexOf(categories, id).None? <==> Absent(categories, id)
  {
    if IndexOf(categories, id).Some? {
      assert categories[IndexOf(categories, id).value] in categories;
    }
  }

  /** `getById`: the first category with `id`, or `null`; the store is untouched. */
  function GetById(categories: seq<Category>, id: int): (r: Option<Category>)
    ensures r.None? <==> Absent(categories, id)
    ensures r.Some? ==> r.value in categories && r.value.Id == id
  {
    IndexOfAbsent(categories, id);
    Store.Find(categories, CategoryId, id)
  }

  /** `create`: a fresh id, color defaulting to purple, and no tasks counted. */
  function Create(categories: seq<Category>, input: CategoryInput): (r: (seq<Category>, Category))
    ensures r.0 == categories + [r.1]
    ensures forall c :: c in categories ==> c.Id < r.1.Id
    ensures |categories| == 0 ==> r.1.Id == 1
    ensures |categories| > 0 ==> exists i :: 0 <= i < |categories| && categories[i].Id == r.1.Id - 1
    ensures r.1.name == input.name && r.1.taskCount == 0
    ensures r.1.color == Text.OrElse(input.color, "#7C3AED")
  {
    var c := Category(Store.NextId(categories, CategoryId), input.name, Text.OrElse(input.color, "#7C3AED"), 0);
    (categories + [c], c)
  }

  /** The record `update` writes: the patch spread over the old record, `Id` pinned. */
  function Merge(prev: Category, id: int, p: CategoryPatch): Category {
    Category(id, p.name.GetOr(prev.name), p.color.GetOr(prev.color), p.taskCount.GetOr(prev.taskCount))
  }

  /** `update`: `null` and no change for an unknown id, else the merged record in place. */
  function Update(categories: seq<Category>, id: int, p: CategoryPatch): (r: (seq<Category>, Option<Category>))
    ensures r.1.None? <==> Absent(categories, id)
    ensures r.1.None? ==> r.0 == categories
    ensures r.1.Some? ==>
      (IndexOf(categories, id).Some? && r.0 == categories[IndexOf(categories, id).value := r.1.value])
    ensures r.1.Some? ==> r.1.value.Id == id
  {
    IndexOfAbsent(categories, id);
    match IndexOf(categories, id)
    case None => (categories, None)
    case Some(i) =>
      var c := Merge(categories[i], id, p);
      (categories[i := c], Some(c))
  }

  /** `delete`: `false` and no change for an unknown id, else the first match spliced out. */
  function Delete(categories: seq<Category>, id: int): (r: (seq<Category>, bool))
    ensures !r.1 <==> Absent(categories, id)
    ensures !r.1 ==> r.0 == categories
    ensures r.1 ==> |r.0| == |categories| - 1 && Seqs.IsSubsequence(r.0, categories)
    ensures r.1 ==> exists c :: c in categories && c.Id == id && multiset(r.0) + multiset{c} == multiset(categories)
    ensures forall c :: c in categories && c.Id != id ==> c in r.0
  {
    IndexOfAbsent(categories, id);
    match IndexOf(categories, id)
    case None => (categories, false)
    case Some(i) =>
      var rest := Store.RemoveAt(categories, i);
      Store.RemoveAtSubsequence(categories, i);
      assert categories[i] in categories;
      Store.RemoveAtKeepsOthers(categories, i, CategoryId);
      (rest, true)
  }

  // ---------------------------------------------------------------------------
  // Properties relating the operations

  /** Creation keeps ids unique. */
  lemma CreateKeepsIdsUnique(categories: seq<Category>, input: CategoryInput)
    requires Store.UniqueIds(categories, CategoryId)
    ensures Store.UniqueIds(Create(categories, input).0, CategoryId)
  {
    var r := Create(categories, input);
    forall i | 0 <= i < |categories|
      ensures CategoryId(categories[i]) < CategoryId(r.1)
    {
      assert categories[i] in categories;
    }
    Store.AppendFreshUnique(categories, r.1, CategoryId);
  }

  /** Update keeps ids unique, whatever `Id` the patch carries. */
  lemma UpdateKeepsIdsUnique(categories: seq<Category>, id: int, p: CategoryPatch)
    requires Store.UniqueIds(categories, CategoryId)
    ensures Store.UniqueIds(Update(categories, id, p).0, CategoryId)
  {
    var r := Update(categories, id, p);
    if r.1.Some? {
      Store.ReplaceSameIdUnique(categories, IndexOf(categories, id).value, r.1.value, CategoryId);
    }
  }

  /** The patched fields win, the rest come from the stored record, and the id stays put. */
  lemma UpdateMerges(categories: seq<Category>, id: int, p: CategoryPatch)
    requires !Absent(categories, id)
    ensures var prev := GetById(categories, id).value;
      var c := Update(categories, id, p).1;
      c == Some(Category(id, p.name.GetOr(prev.name), p.color.GetOr(prev.color), p.taskCount.GetOr(prev.taskCount)))
  {
    IndexOfAbsent(categories, id);
  }

  /** A task count supplied to `create` is discarded. */
  lemma CreateIgnoresTaskCount(categories: seq<Category>, input: CategoryInput, n: Option<int>)
    ensures Create(categories, input.(taskCount := n)) == Create(categories, input)
  {
  }

  /** The created category is what `getById` finds under its new id. */
  lemma CreateThenGet(categories: seq<Category>, input: CategoryInput)
    ensures var r := Create(categories, input); GetById(r.0, r.1.Id) == Some(r.1)
  {
    var r := Create(categories, input);
    forall i | 0 <= i < |categories|
      ensures r.0[i].Id != r.1.Id
    {
      assert categories[i] in categories;
    }
    Store.FindIndexIs(r.0, CategoryId, r.1.Id, |categories|);
  }

  /** An update stamps nothing: an empty patch leaves the store as it was. */
  lemma UpdateEmptyPatch(categories: seq<Category>, id: int)
    ensures Update(categories, id, EmptyPatch) == (categories, GetById(categories, id))
  {
    match IndexOf(categories, id)
    case None =>
    case Some(i) =>
      assert Merge(categories[i], id, EmptyPatch) == categories[i];
      assert categories[i := categories[i]] == categories;
  }

  /** Delete removes only matching records: with unique ids, exactly one fewer and the id gone. */
  lemma DeleteRemovesId(categories: seq<Category>, id: int)
    requires Store.UniqueIds(categories, CategoryId)
    ensures Absent(Delete(categories, id).0, id)
  {
    IndexOfAbsent(categories, id);
    match IndexOf(categories, id)
    case None =>
    case Some(i) =>
      var rest := Store.RemoveAt(categories, i);
      forall k | 0 <= k < |rest|
        ensures rest[k].Id != id
      {
        if k < i {
          assert CategoryId(categories[k]) != CategoryId(categories[i]);
        } else {
          assert CategoryId(categories[k + 1]) != CategoryId(categories[i]);
        }
      }
  }
}
