/**
 * The AUTHOR table: the repository operations inherited from JPA
 * (`findById`, `existsById`, `findAll`, `save`, `deleteById`, `deleteAll`)
 * and the native name search `findByNames`.
 */
module AuthorRepo {
  import opened Wrappers
  import opened Entities
  import Table

  /** `term` occurs as a contiguous part of `s`. */
  predicate Occurs(term: string, s: string) {
    term <= s || (s != [] && Occurs(term, s[1..]))
  }

  /** `Occurs` is the usual substring relation: the term starts at some position of `s`. */
  lemma {:induction false} OccursAt(term: string, s: string)
    ensures Occurs(term, s) <==> exists i :: 0 <= i <= |s| && term <= s[i..]
  {
    assert s[0..] == s;
    if s != [] {
      OccursAt(term, s[1..]);
      if exists i :: 0 <= i <= |s| && term <= s[i..] {
        var i :| 0 <= i <= |s| && term <= s[i..];
        if i > 0 {
          assert s[1..][i - 1..] == s[i..];
        }
      }
      if exists i :: 0 <= i <= |s[1..]| && term <= s[1..][i..] {
        var i :| 0 <= i <= |s[1..]| && term <= s[1..][i..];
        assert s[1..][i..] == s[i + 1..];
      }
    }
  }

  /** `COLUMN LIKE %term%`: the term occurs in the column; a NULL column matches no term. */
  predicate Like(column: Option<string>, term: string) {
    column.Some? && Occurs(term, column.value)
  }

  /** The WHERE clause of `findByNames`: the two substring tests joined by OR. */
  predicate MatchesNames(a: Author, first: string, last: string) {
    Like(a.firstName, first) || Like(a.lastName, last)
  }

  /**
   * `findByNames(first, last)`: exactly the stored authors satisfying the
   * WHERE clause, in store order.
   */
  function FindByNames(stored: seq<Author>, first: string, last: string): (r: seq<Author>)
    ensures forall a :: a in r <==> a in stored && MatchesNames(a, first, last)
    ensures |r| <= |stored|
  {
    if stored == [] then []
    else
      var rest := FindByNames(stored[1..], first, last);
      assert forall a :: a in stored <==> a == stored[0] || a in stored[1..];
      if MatchesNames(stored[0], first, last) then [stored[0]] + rest else rest
  }

  /** The search keeps store order: searching two stretches of the table one after the other gives the results one after the other. */
  lemma {:induction false} FindByNamesConcat(s: seq<Author>, t: seq<Author>, first: string, last: string)
    ensures FindByNames(s + t, first, last) == FindByNames(s, first, last) + FindByNames(t, first, last)
  {
    if s == [] {
      assert s + t == t;
    } else {
      assert (s + t)[0] == s[0];
      assert (s + t)[1..] == s[1..] + t;
      FindByNamesConcat(s[1..], t, first, last);
    }
  }

  /** OR, not AND: an author whose last name matches is found even when the first name does not. */
  lemma LastNameAloneSuffices(stored: seq<Author>, a: Author, first: string, last: string)
    requires a in stored
    requires !Like(a.firstName, first) && Like(a.lastName, last)
    ensures a in FindByNames(stored, first, last)
  {
  }

  /** A non-empty term can only occur in a string that contains its first character. */
  lemma {:induction false} OccursFirstChar(term: string, s: string)
    requires term != []
    ensures Occurs(term, s) ==> term[0] in s
  {
    if s != [] && !(term <= s) {
      OccursFirstChar(term, s[1..]);
    }
  }

  /** With Joe Generic (id 100) and Max Musterman (id 101) stored, searching "Joe"/"Generic" finds only Joe Generic. */
  lemma JoeGenericScenario()
    ensures var joe := Author(100, Some("Joe"), Some("Generic"));
            var max := Author(101, Some("Max"), Some("Musterman"));
            FindByNames([joe, max], "Joe", "Generic") == [joe]
            && FindByNames([joe], "Joe", "Generic") == [joe]
  {
    var joe := Author(100, Some("Joe"), Some("Generic"));
    var max := Author(101, Some("Max"), Some("Musterman"));
    assert 'J' !in "Max" && 'G' !in "Musterman";
    OccursFirstChar("Joe", "Max");
    OccursFirstChar("Generic", "Musterman");
    assert [joe, max][1..] == [max];
    assert [max][1..] == [] && [joe][1..] == [];
    assert MatchesNames(joe, "Joe", "Generic") && !MatchesNames(max, "Joe", "Generic");
    assert FindByNames([max], "Joe", "Generic") == [];
  }

  /** The AUTHOR table, updated in place by `save`, `deleteById` and `deleteAll`. */
  class AuthorRepository {
    var rows: seq<Author>

    ghost predicate Valid()
      reads this
    {
      Table.UniqueKeys(rows, AuthorKey)
    }

    constructor ()
      ensures Valid() && rows == []
    {
      rows := [];
    }

    function FindById(id: int): Option<Author>
      reads this
    {
      Table.Find(rows, AuthorKey, id)
    }

    function ExistsById(id: int): bool
      reads this
    {
      id in Table.Keys(rows, AuthorKey)
    }

    function FindAll(): seq<Author>
      reads this
    {
      rows
    }

    method Save(a: Author)
      requires Valid()
      modifies this
      ensures Valid()
      ensures rows == Table.Upsert(old(rows), AuthorKey, a)
    {
      rows := Table.Upsert(rows, AuthorKey, a);
    }

    method DeleteById(id: int)
      requires Valid()
      modifies this
      ensures Valid()
      ensures rows == Table.Remove(old(rows), AuthorKey, id)
    {
      rows := Table.Remove(rows, AuthorKey, id);
    }

    method DeleteAll()
      modifies this
      ensures Valid() && rows == []
    {
      rows := [];
    }
  }
}
