/**
 * The SQL queries the handlers issue against the `questions` table: a where-clause
 * (`Criterion`), the rows it selects in table order (`Select`), and the two ways a
 * handler takes a row out of a result (`.first()` and `.one_or_none()`).
 */
module Query {
  import opened Wrappers
  import opened Text
  import opened Models

  /** The filters built from `filter`, `filter_by`, `ilike` and `notin_`. */
  datatype Criterion =
    | QuestionContains(term: string)   // the question text matches the search term, ignoring case
    | CategoryIs(category: int)        // the question belongs to this category
    | IdIs(id: int)                    // the row with this id
    | IdNotIn(ids: seq<int>)           // a row whose id is none of these
    | Not(negated: Criterion)
    | And(left: Criterion, right: Criterion)

  /** Whether row `q` passes the where-clause `c`; `NOT IN` over a list compares against every element. */
  predicate Holds(c: Criterion, q: Question): (holds: bool)
    ensures c.QuestionContains? ==> (holds <==> exists i :: OccursAt(Lower(q.question), Lower(c.term), i))
    ensures c.IdNotIn? ==> (holds <==> forall k :: 0 <= k < |c.ids| ==> c.ids[k] != q.id)
  {
    match c
    case QuestionContains(term) => ContainsIgnoringCaseIff(q.question, term); ContainsIgnoringCase(q.question, term)
    case CategoryIs(category) => q.category == category
    case IdIs(id) => q.id == id
    case IdNotIn(ids) => q.id !in ids
    case Not(d) => !Holds(d, q)
    case And(a, b) => Holds(a, q) && Holds(b, q)
  }

  /** `query.filter(c).all()`: the questions satisfying `c`, in table order. */
  function Select(c: Criterion, s: seq<Question>): (r: seq<Question>)
    ensures |r| <= |s|
    ensures forall q :: q in r <==> q in s && Holds(c, q)
  {
    if s == [] then []
    else
      var rest := Select(c, s[1..]);
      if Holds(c, s[0]) then [s[0]] + rest else rest
  }

  /** `.first()`: the first row of a result, or none. */
  function First(s: seq<Question>): (r: Option<Question>)
    ensures r.None? <==> s == []
    ensures r.Some? ==> r.value == s[0]
  {
    if s == [] then None else Some(s[0])
  }

  /** What `.one_or_none()` finds: no row, one row, or more (it raises `MultipleResultsFound`). */
  datatype Lookup = NoRow | OneRow(row: Question) | ManyRows

  function OneOrNone(s: seq<Question>): (r: Lookup)
    ensures r.NoRow? <==> s == []
    ensures r.OneRow? <==> |s| == 1
    ensures r.OneRow? ==> r.row == s[0]
  {
    if s == [] then NoRow else if |s| == 1 then OneRow(s[0]) else ManyRows
  }

  /** The table after `DELETE ... WHERE id = id`: no row keeps that id, every other row stays. */
  function Without(s: seq<Question>, id: int): (r: seq<Question>)
    ensures !HasId(r, id)
    ensures forall q :: q in r <==> q in s && q.id != id
  {
    var r := Select(Not(IdIs(id)), s);
    assert forall q :: q in r <==> q in s && !Holds(IdIs(id), q);
    assert forall i :: 0 <= i < |r| ==> r[i] in r;
    r
  }

  /** Selection distributes over concatenation, so it keeps the table's order. */
  lemma {:induction false} SelectAppend(c: Criterion, a: seq<Question>, b: seq<Question>)
    ensures Select(c, a + b) == Select(c, a) + Select(c, b)
  {
    if a == [] {
      assert a + b == b;
    } else {
      assert (a + b)[0] == a[0];
      assert (a + b)[1..] == a[1..] + b;
      SelectAppend(c, a[1..], b);
    }
  }

  /** A filter every row passes selects the whole table. */
  lemma {:induction false} SelectAll(c: Criterion, s: seq<Question>)
    requires forall q :: q in s ==> Holds(c, q)
    ensures Select(c, s) == s
  {
    if s != [] {
      SelectAll(c, s[1..]);
    }
  }

  /** A filter no row passes selects nothing. */
  lemma {:induction false} SelectNone(c: Criterion, s: seq<Question>)
    requires forall q :: q in s ==> !Holds(c, q)
    ensures Select(c, s) == []
  {
    if s != [] {
      SelectNone(c, s[1..]);
    }
  }

  /** Chaining two filters (`query.filter(a).filter(b)`) is filtering by both. */
  lemma {:induction false} SelectThenSelect(a: Criterion, b: Criterion, s: seq<Question>)
    ensures Select(b, Select(a, s)) == Select(And(a, b), s)
  {
    if s != [] {
      SelectThenSelect(a, b, s[1..]);
    }
  }

  /** The head of a selection is the earliest row of the table that satisfies the filter. */
  lemma {:induction false} SelectHeadIsEarliest(c: Criterion, s: seq<Question>, i: int)
    requires 0 <= i < |s| && Holds(c, s[i])
    requires forall j :: 0 <= j < i ==> !Holds(c, s[j])
    ensures Select(c, s) != [] && Select(c, s)[0] == s[i]
  {
    if i > 0 {
      SelectHeadIsEarliest(c, s[1..], i - 1);
    }
  }

  /** The set of rows of `s` that satisfy `c`. */
  function Satisfying(c: Criterion, s: seq<Question>): set<Question> {
    set q | q in s && Holds(c, q)
  }

  /** Dropping the first row of a table with unique ids leaves unique ids, none of them the first row's. */
  lemma UniqueTail(s: seq<Question>)
    requires UniqueIds(s) && s != []
    ensures UniqueIds(s[1..])
    ensures s[0] !in s[1..]
  {
    forall i, j | 0 <= i < j < |s[1..]| ensures s[1..][i].id != s[1..][j].id {
      assert s[1..][i] == s[i + 1] && s[1..][j] == s[j + 1];
    }
  }

  lemma SatisfyingCons(c: Criterion, s: seq<Question>)
    requires s != []
    ensures Satisfying(c, s) == Satisfying(c, s[1..]) + (if Holds(c, s[0]) then {s[0]} else {})
  {
    assert s == [s[0]] + s[1..];
  }

  /** Over a table with unique ids, the length of a selection is the number of distinct rows that satisfy the filter. */
  lemma {:induction false} SelectCount(c: Criterion, s: seq<Question>)
    requires UniqueIds(s)
    ensures |Select(c, s)| == |Satisfying(c, s)|
  {
    if s != [] {
      UniqueTail(s);
      SelectCount(c, s[1..]);
      SatisfyingCons(c, s);
      if Holds(c, s[0]) {
        assert s[0] !in Satisfying(c, s[1..]);
      }
    }
  }

  /** A selection from an id-increasing table is id-increasing. */
  lemma {:induction false} SelectKeepsIncreasing(c: Criterion, s: seq<Question>)
    requires IdsIncreasing(s)
    ensures IdsIncreasing(Select(c, s))
  {
    if s != [] {
      SelectKeepsIncreasing(c, s[1..]);
      var rest := Select(c, s[1..]);
      assert forall k :: 0 <= k < |rest| ==> rest[k] in s[1..];
    }
  }

  /** With unique ids, `filter(Question.id == id)` finds at most one row. */
  lemma {:induction false} AtMostOneWithId(s: seq<Question>, id: int)
    requires UniqueIds(s)
    ensures |Select(IdIs(id), s)| <= 1
    ensures Select(IdIs(id), s) != [] <==> HasId(s, id)
  {
    if s != [] {
      UniqueTail(s);
      AtMostOneWithId(s[1..], id);
      if s[0].id == id {
        assert !HasId(s[1..], id);
      }
      if HasId(s, id) && s[0].id != id {
        var k :| 0 <= k < |s| && s[k].id == id;
        assert s[1..][k - 1].id == id;
      }
    }
    if HasId(s, id) {
      var k :| 0 <= k < |s| && s[k].id == id;
      assert s[k] in Select(IdIs(id), s);
    }
  }

  /** Deleting an id that is absent leaves the table as it was. */
  lemma WithoutAbsent(s: seq<Question>, id: int)
    requires !HasId(s, id)
    ensures Without(s, id) == s
  {
    forall q | q in s ensures Holds(Not(IdIs(id)), q) {
      var k :| 0 <= k < |s| && s[k] == q;
    }
    SelectAll(Not(IdIs(id)), s);
  }

  /** Deleting the id of row `i` of a table with unique ids removes that row and nothing else, keeping the order. */
  lemma WithoutPresent(s: seq<Question>, i: int)
    requires UniqueIds(s)
    requires 0 <= i < |s|
    ensures Without(s, s[i].id) == s[..i] + s[i + 1..]
    ensures |Without(s, s[i].id)| == |s| - 1
  {
    var id := s[i].id;
    var before, after := s[..i], s[i + 1..];
    assert !HasId(before, id);
    assert !HasId(after, id);
    WithoutAbsent(before, id);
    WithoutAbsent(after, id);
    assert Without([s[i]], id) == [] by {
      assert [s[i]][1..] == [];
      assert !Holds(Not(IdIs(id)), [s[i]][0]);
      assert Select(Not(IdIs(id)), [s[i]][1..]) == [];
    }
    assert s == before + ([s[i]] + after);
    SelectAppend(Not(IdIs(id)), before, [s[i]] + after);
    SelectAppend(Not(IdIs(id)), [s[i]], after);
  }
}
