/** The book records held by the service and the two list operations the
    handlers build their answers from: filtering the store and projecting
    records to their `{id, name, publisher}` summary. */
module Catalog {
  import opened Text

  datatype Option<T> = None | Some(value: T)

  /** One stored book, as pushed by the create handler. */
  datatype Book = Book(
    id: string,
    name: string,
    year: int,
    author: string,
    summary: string,
    publisher: string,
    pageCount: int,
    readPage: int,
    reading: bool,
    finished: bool,
    insertedAt: string,
    updatedAt: string)

  /** The projection the list handler returns for each book. */
  datatype Summary = Summary(id: string, name: string, publisher: string)

  /** The predicates the handlers filter the store with. */
  datatype Filter =
    | NameContains(needle: string)
    | ReadingIs(reading: bool)
    | FinishedIs(finished: bool)
    | IdIs(id: string)

  /** Whether `b` passes `f`; the name test is a case-insensitive substring test. */
  predicate Matches(b: Book, f: Filter)
  {
    match f
    case NameContains(needle) => Contains(Lower(b.name), Lower(needle))
    case ReadingIs(reading) => b.reading == reading
    case FinishedIs(finished) => b.finished == finished
    case IdIs(id) => b.id == id
  }

  /** Case does not matter to the name filter: lower-casing the needle first
      leaves the test unchanged. */
  lemma NameFilterIgnoresCase(b: Book, needle: string)
    ensures Matches(b, NameContains(needle)) == Matches(b, NameContains(Lower(needle)))
  {
    LowerIdempotent(needle);
  }

  /** The books of `s` that pass `f`, in store order (Array.prototype.filter). */
  function Where(s: seq<Book>, f: Filter): (r: seq<Book>)
    ensures |r| <= |s|
    ensures forall b :: b in r <==> b in s && Matches(b, f)
  {
    if s == [] then []
    else (if Matches(s[0], f) then [s[0]] else []) + Where(s[1..], f)
  }

  function Summarize(b: Book): Summary
  {
    Summary(b.id, b.name, b.publisher)
  }

  /** Each book of `s` replaced by its summary, position by position. */
  function Project(s: seq<Book>): (r: seq<Summary>)
    ensures |r| == |s|
    ensures forall i :: 0 <= i < |s| ==> r[i] == Summarize(s[i])
  {
    if s == [] then [] else [Summarize(s[0])] + Project(s[1..])
  }

  /** Filtering distributes over concatenation, so it keeps store order. */
  lemma {:induction false} WhereAppend(a: seq<Book>, b: seq<Book>, f: Filter)
    ensures Where(a + b, f) == Where(a, f) + Where(b, f)
  {
    if a == [] {
      assert a + b == b;
    } else {
      assert (a + b)[1..] == a[1..] + b;
      WhereAppend(a[1..], b, f);
    }
  }

  /** The first book `Where` yields is the first book of the store passing `f`. */
  lemma {:induction false} WhereFirst(s: seq<Book>, f: Filter)
    requires Where(s, f) != []
    ensures exists i :: 0 <= i < |s| && s[i] == Where(s, f)[0] && Matches(s[i], f) &&
                        forall j :: 0 <= j < i ==> !Matches(s[j], f)
  {
    if Matches(s[0], f) {
      assert s[0] == Where(s, f)[0];
    } else {
      var t := s[1..];
      assert Where(s, f) == Where(t, f);
      WhereFirst(t, f);
      var i :| 0 <= i < |t| && t[i] == Where(t, f)[0] && Matches(t[i], f) &&
               forall j :: 0 <= j < i ==> !Matches(t[j], f);
      assert s[i + 1] == t[i];
      forall j | 0 <= j < i + 1
        ensures !Matches(s[j], f)
      {
        if j > 0 {
          assert s[j] == t[j - 1];
        }
      }
    }
  }

  /** Projection commutes with concatenation. */
  lemma {:induction false} ProjectAppend(a: seq<Book>, b: seq<Book>)
    ensures Project(a + b) == Project(a) + Project(b)
  {
    var l, r := Project(a + b), Project(a) + Project(b);
    forall i | 0 <= i < |a + b|
      ensures l[i] == r[i]
    {
      if i < |a| {
        assert (a + b)[i] == a[i];
      } else {
        assert (a + b)[i] == b[i - |a|];
      }
    }
  }

  /** A summary is listed exactly when some book of `s` has it. */
  lemma {:induction false} ProjectMembers(s: seq<Book>)
    ensures forall x :: x in Project(s) <==> exists b :: b in s && x == Summarize(b)
  {
    var p := Project(s);
    forall x | x in p
      ensures exists b :: b in s && x == Summarize(b)
    {
      var k :| 0 <= k < |p| && p[k] == x;
      assert s[k] in s;
    }
    forall x | exists b :: b in s && x == Summarize(b)
      ensures x in p
    {
      var b :| b in s && x == Summarize(b);
      var k :| 0 <= k < |s| && s[k] == b;
      assert p[k] == x;
    }
  }
}
