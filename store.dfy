/** The handlers that change the questions table, and the category listing, as methods on
    the database the service is bound to. */
module QuestionStore {
  import opened TriviaModel
  import opened Filtering
  import opened Pagination

  /** `Question.query.filter(Question.id == id).one_or_none()`. */
  function FindQuestion(questions: seq<Question>, id: int): (r: Option<Question>)
    ensures r.Some? ==> r.value in questions && r.value.id == id
    ensures r.None? <==> id !in Ids(questions)
  {
    if questions == [] then None
    else if questions[0].id == id then Some(questions[0])
    else
      var r := FindQuestion(questions[1..], id);
      assert Ids(questions) == {questions[0].id} + Ids(questions[1..]);
      r
  }

  /** The table after `question.delete()` of the row with id `id`. */
  function Without(questions: seq<Question>, id: int): (r: seq<Question>)
    ensures forall q :: q in r <==> q in questions && q.id != id
    ensures SortedById(questions) ==> SortedById(r)
    ensures SortedById(questions) && id in Ids(questions) ==> |r| == |questions| - 1
  {
    FilterSorted(questions, (q: Question) => q.id != id);
    FilterDropsOne(questions, (q: Question) => q.id != id, id);
    Filter(questions, (q: Question) => q.id != id)
  }

  /** The `{id: type}` dictionary `obtain_categories` fills, one category after another
      (a later row with the same id overwrites an earlier one). */
  function CategoryDict(categories: seq<Category>): (m: map<int, string>)
    ensures m.Keys == set c | c in categories :: c.id
  {
    if categories == [] then map[]
    else
      var last := categories[|categories| - 1];
      var init := categories[..|categories| - 1];
      assert categories == init + [last];
      CategoryDict(init)[last.id := last.kind]
  }

  /** With unique ids each category's id maps to its own name. */
  lemma {:induction false} CategoryDictNames(categories: seq<Category>)
    requires UniqueCategoryIds(categories)
    ensures forall c :: c in categories ==> CategoryDict(categories)[c.id] == c.kind
  {
    if categories != [] {
      var last := categories[|categories| - 1];
      var init := categories[..|categories| - 1];
      assert categories == init + [last];
      CategoryDictNames(init);
      forall c | c in categories ensures CategoryDict(categories)[c.id] == c.kind {
        if c != last {
          var k :| 0 <= k < |categories| && categories[k] == c;
          assert k < |categories| - 1;
          assert c in init;
        }
      }
    }
  }

  class Store {
    /** The questions table, in id order. */
    var questions: seq<Question>
    /** The categories table; nothing here changes it. */
    var categories: seq<Category>
    /** The id the database will give the next inserted question. */
    var nextId: int

    ghost predicate Valid()
      reads this
    {
      && SortedById(questions)
      && (forall q :: q in questions ==> q.id < nextId)
      && UniqueCategoryIds(categories)
    }

    /** A database seeded with `seed` and `categories`. */
    constructor (seed: seq<Question>, categories: seq<Category>)
      requires SortedById(seed) && UniqueCategoryIds(categories)
      ensures Valid()
      ensures questions == seed && this.categories == categories
    {
      questions := seed;
      this.categories := categories;
      nextId := if seed == [] then 1 else seed[|seed| - 1].id + 1;
      new;
      forall q | q in seed ensures q.id < nextId {
        var k :| 0 <= k < |seed| && seed[k] == q;
        assert k == |seed| - 1 || seed[k].id < seed[|seed| - 1].id;
      }
    }

    /** `delete_question`. The `abort(404)` for an unknown id is raised inside the `try`,
        so the bare `except` turns it into 422, as it does a failed `question.delete()`
        (`deleteSucceeds` is the database's verdict). */
    method DeleteQuestion(id: int, page: int, deleteSucceeds: bool) returns (r: Reply<MutationBody>)
      requires Valid()
      modifies this
      ensures Valid()
      ensures categories == old(categories) && nextId == old(nextId)
      ensures id in Ids(old(questions)) && deleteSucceeds ==>
                && questions == Without(old(questions), id)
                && (forall q :: q in questions <==> q in old(questions) && q.id != id)
                && |questions| == |old(questions)| - 1
                && r == Ok(Deleted(id, Paginate(questions, page), |questions|))
      ensures !(id in Ids(old(questions)) && deleteSucceeds) ==>
                questions == old(questions) && r == Err(Unprocessable)
    {
      var question := FindQuestion(questions, id);
      if question.None? || !deleteSucceeds {
        r := Err(Unprocessable);
        return;
      }
      questions := Without(questions, id);
      r := Ok(Deleted(id, Paginate(questions, page), |questions|));
    }

    /** `add_question`: the new row gets the next id and goes to the end of the table;
        a failed `question.insert()` (`insertSucceeds` is the database's verdict) is 422. */
    method AddQuestion(question: string, answer: string, category: int, difficulty: int, page: int,
                       insertSucceeds: bool)
      returns (r: Reply<MutationBody>)
      requires Valid()
      modifies this
      ensures Valid()
      ensures categories == old(categories)
      ensures insertSucceeds ==>
                && questions == old(questions) + [Question(old(nextId), question, answer, category, difficulty)]
                && nextId == old(nextId) + 1
                && (forall q :: q in old(questions) ==> q.id < old(nextId))
                && r == Ok(Created(old(nextId), Paginate(questions, page), |old(questions)| + 1))
      ensures !insertSucceeds ==>
                questions == old(questions) && nextId == old(nextId) && r == Err(Unprocessable)
    {
      if !insertSucceeds {
        r := Err(Unprocessable);
        return;
      }
      var row := Question(nextId, question, answer, category, difficulty);
      questions := questions + [row];
      nextId := nextId + 1;
      r := Ok(Created(row.id, Paginate(questions, page), |questions|));
    }

    /** `obtain_categories`. The emptiness check sits inside the loop, right after an
        insertion, so it never fires; the `return` is under it, so the view always ends
        without returning. */
    method ObtainCategories() returns (dict: map<int, string>, r: Reply<map<int, string>>)
      requires Valid()
      ensures dict == CategoryDict(categories)
      ensures dict.Keys == set c | c in categories :: c.id
      ensures forall c :: c in categories ==> dict[c.id] == c.kind
      ensures r == NoReturn
    {
      dict := map[];
      for i := 0 to |categories|
        invariant dict == CategoryDict(categories[..i])
      {
        var category := categories[i];
        assert categories[..i + 1] == categories[..i] + [category];
        dict := dict[category.id := category.kind];
        assert category.id in dict;
      }
      assert categories[..|categories|] == categories;
      CategoryDictNames(categories);
      r := NoReturn;
    }
  }
}
