/**
 * The two tables of the trivia database, as records, and the orderings and
 * projections the request handlers compute from them.
 */
module Models {

  /** A row of the `categories` table; `typeName` is the column called `type`. */
  datatype Category = Category(id: int, typeName: string)

  /**
   * A row of the `questions` table. `Question.format()` projects exactly these
   * five fields, so a formatted question is the record itself.
   */
  datatype Question = Question(id: int, question: string, answer: string, category: int, difficulty: int)

  /** No two questions share an id (it is the table's primary key). */
  predicate UniqueIds(s: seq<Question>) {
    forall i, j :: 0 <= i < j < |s| ==> s[i].id != s[j].id
  }

  /** Ids strictly increase along the sequence: the shape of an autoincrement table read in insertion order. */
  predicate IdsIncreasing(s: seq<Question>) {
    forall i, j :: 0 <= i < j < |s| ==> s[i].id < s[j].id
  }

  /** Ids never decrease along the sequence: the result of `ORDER BY id`. */
  predicate SortedById(s: seq<Question>) {
    forall i, j :: 0 <= i < j < |s| ==> s[i].id <= s[j].id
  }

  predicate HasId(s: seq<Question>, id: int) {
    exists i :: 0 <= i < |s| && s[i].id == id
  }

  predicate UniqueCategoryIds(cats: seq<Category>) {
    forall i, j :: 0 <= i < j < |cats| ==> cats[i].id != cats[j].id
  }

  lemma IncreasingIsUnique(s: seq<Question>)
    requires IdsIncreasing(s)
    ensures UniqueIds(s)
  {
  }

  /** A question whose id bounds a sorted sequence from below can be put in front of it. */
  lemma PrependSorted(h: Question, t: seq<Question>)
    requires SortedById(t)
    requires forall x :: x in t ==> h.id <= x.id
    ensures SortedById([h] + t)
  {
    forall i, j | 0 <= i < j < |[h] + t| ensures ([h] + t)[i].id <= ([h] + t)[j].id {
      if i == 0 {
        assert ([h] + t)[j] == t[j - 1] && t[j - 1] in t;
      }
    }
  }

  /** Places `q` into an id-sorted sequence, in front of the first question whose id is not smaller. */
  function InsertById(q: Question, s: seq<Question>): (r: seq<Question>)
    requires SortedById(s)
    ensures SortedById(r)
    ensures multiset(r) == multiset(s) + multiset{q}
    ensures forall x :: x in r <==> x == q || x in s
    ensures |r| == |s| + 1
  {
    if s == [] then [q]
    else if q.id <= s[0].id then
      PrependSorted(q, s);
      [q] + s
    else
      var rest := InsertById(q, s[1..]);
      assert s == [s[0]] + s[1..];
      assert forall k :: 1 <= k < |s| ==> s[0].id <= s[k].id;
      PrependSorted(s[0], rest);
      [s[0]] + rest
  }

  /** `Question.query.order_by(Question.id).all()`: the questions sorted by id, nothing added or lost. */
  function SortById(s: seq<Question>): (r: seq<Question>)
    ensures SortedById(r)
    ensures multiset(r) == multiset(s)
    ensures |r| == |s|
  {
    if s == [] then []
    else
      assert s == [s[0]] + s[1..];
      InsertById(s[0], SortById(s[1..]))
  }

  /** A table whose ids already increase comes back from `ORDER BY id` unchanged. */
  lemma {:induction false} SortByIdOfIncreasing(s: seq<Question>)
    requires IdsIncreasing(s)
    ensures SortById(s) == s
  {
    if s != [] {
      SortByIdOfIncreasing(s[1..]);
    }
  }

  /** Every question of the sorted list comes from the table. */
  lemma SortByIdMembers(s: seq<Question>, q: Question)
    ensures q in SortById(s) <==> q in s
  {
    assert q in SortById(s) <==> q in multiset(SortById(s));
  }

  /** The category types in table order, as `get_all_categories` lists them. */
  function CategoryTypes(cats: seq<Category>): (r: seq<string>)
    ensures |r| == |cats|
    ensures forall c :: c in cats ==> c.typeName in r
    ensures forall t :: t in r ==> exists c :: c in cats && c.typeName == t
  {
    var r := seq(|cats|, i requires 0 <= i < |cats| => cats[i].typeName);
    assert forall i :: 0 <= i < |cats| ==> r[i] == cats[i].typeName;
    r
  }

  /**
   * `{category.id: category.type for category in categories}`: a dictionary
   * comprehension, where a later category overwrites an earlier one with the same id.
   */
  function CategoryMap(cats: seq<Category>): (m: map<int, string>)
    ensures m.Keys == set c | c in cats :: c.id
  {
    if cats == [] then map[]
    else
      var init, last := cats[..|cats| - 1], cats[|cats| - 1];
      assert cats == init + [last];
      CategoryMap(init)[last.id := last.typeName]
  }

  /** With unique category ids, the map sends each category's id to that category's type. */
  lemma {:induction false} CategoryMapAt(cats: seq<Category>, i: int)
    requires UniqueCategoryIds(cats)
    requires 0 <= i < |cats|
    ensures cats[i].id in CategoryMap(cats)
    ensures CategoryMap(cats)[cats[i].id] == cats[i].typeName
  {
    if i < |cats| - 1 {
      var init := cats[..|cats| - 1];
      assert init[i] == cats[i];
      CategoryMapAt(init, i);
    }
  }
}
