/**
 * A table of rows keyed by an integer primary key, as the JPA repositories
 * see it: `findById`, `existsById`, `save` (insert or update), `deleteById`
 * and `findAll` in store order. The key of a row is given by `key`.
 */
module Table {
  import opened Wrappers

  /** The keys present in the table (`existsById` is membership in this set). */
  function Keys<T>(rows: seq<T>, key: T -> int): set<int> {
    if rows == [] then {} else {key(rows[0])} + Keys(rows[1..], key)
  }

  /** The primary key constraint: no two rows share a key. */
  ghost predicate UniqueKeys<T>(rows: seq<T>, key: T -> int) {
    rows == [] || (key(rows[0]) !in Keys(rows[1..], key) && UniqueKeys(rows[1..], key))
  }

  /** A key is present exactly when some stored row carries it. */
  lemma {:induction false} KeysOf<T(!new)>(rows: seq<T>, key: T -> int, id: int)
    ensures id in Keys(rows, key) <==> exists x :: x in rows && key(x) == id
  {
    if rows != [] {
      KeysOf(rows[1..], key, id);
      assert forall x :: x in rows <==> x == rows[0] || x in rows[1..];
    }
  }

  /** `findById`: the row with key `id`, if any. */
  function Find<T(==)>(rows: seq<T>, key: T -> int, id: int): (r: Option<T>)
    ensures r.Some? <==> id in Keys(rows, key)
    ensures r.Some? ==> r.value in rows && key(r.value) == id
  {
    if rows == [] then None
    else if key(rows[0]) == id then Some(rows[0])
    else
      var r := Find(rows[1..], key, id);
      assert r.Some? ==> r.value in rows;
      r
  }

  /** Under the key constraint a stored row is the one `Find` returns for its key. */
  lemma {:induction false} FindStored<T(!new)>(rows: seq<T>, key: T -> int, x: T)
    requires UniqueKeys(rows, key)
    requires x in rows
    ensures Find(rows, key, key(x)) == Some(x)
  {
    if rows[0] != x {
      assert x in rows[1..];
      KeysOf(rows[1..], key, key(x));
      FindStored(rows[1..], key, x);
    }
  }

  /**
   * `save`: an existing row with the same key is replaced where it stands,
   * otherwise the row is appended.
   */
  function Upsert<T>(rows: seq<T>, key: T -> int, row: T): (r: seq<T>)
    ensures Keys(r, key) == Keys(rows, key) + {key(row)}
    ensures key(row) !in Keys(rows, key) ==> r == rows + [row]
    ensures key(row) in Keys(rows, key) ==> |r| == |rows|
    ensures UniqueKeys(rows, key) ==> UniqueKeys(r, key)
  {
    if rows == [] then [row]
    else if key(rows[0]) == key(row) then
      assert ([row] + rows[1..])[1..] == rows[1..];
      [row] + rows[1..]
    else
      var tail := Upsert(rows[1..], key, row);
      assert ([rows[0]] + tail)[1..] == tail;
      assert rows == [rows[0]] + rows[1..];
      [rows[0]] + tail
  }

  /** After `save`, the saved row is found under its key and every other key finds what it found before. */
  lemma {:induction false} UpsertFind<T>(rows: seq<T>, key: T -> int, row: T, id: int)
    ensures Find(Upsert(rows, key, row), key, id) == if id == key(row) then Some(row) else Find(rows, key, id)
  {
    if rows != [] && key(rows[0]) != key(row) {
      UpsertFind(rows[1..], key, row, id);
      assert ([rows[0]] + Upsert(rows[1..], key, row))[1..] == Upsert(rows[1..], key, row);
    } else if rows != [] {
      assert ([row] + rows[1..])[1..] == rows[1..];
    }
  }

  /** `deleteById`: every row with key `id` is dropped, the others keep their order. */
  function Remove<T>(rows: seq<T>, key: T -> int, id: int): (r: seq<T>)
    ensures Keys(r, key) == Keys(rows, key) - {id}
    ensures UniqueKeys(rows, key) ==> UniqueKeys(r, key)
  {
    if rows == [] then []
    else
      var tail := Remove(rows[1..], key, id);
      if key(rows[0]) == id then tail
      else
        assert ([rows[0]] + tail)[1..] == tail;
        [rows[0]] + tail
  }

  /** After `deleteById`, the key is gone and every other key finds what it found before. */
  lemma {:induction false} RemoveFind<T>(rows: seq<T>, key: T -> int, id: int, k: int)
    ensures Find(Remove(rows, key, id), key, k) == if k == id then None else Find(rows, key, k)
  {
    if rows != [] {
      RemoveFind(rows[1..], key, id, k);
      if key(rows[0]) != id {
        assert ([rows[0]] + Remove(rows[1..], key, id))[1..] == Remove(rows[1..], key, id);
      }
    }
  }

  /** The stored rows whose keys are among `ids`: a set of ids resolved to rows. */
  function Resolve<T(==,!new)>(rows: seq<T>, key: T -> int, ids: set<int>): set<T> {
    set x | x in rows && key(x) in ids
  }

  /**
   * Every id resolved to its row, or None when some id has no row (where
   * the services call `findById(i).get()`, that throws).
   */
  function ResolveAll<T(==,!new)>(rows: seq<T>, key: T -> int, ids: set<int>): Option<set<T>> {
    if ids <= Keys(rows, key) then Some(Resolve(rows, key, ids)) else None
  }

  /** Resolving the ids one at a time, as the loops over an id set do. */
  lemma ResolveAdd<T(!new)>(rows: seq<T>, key: T -> int, ids: set<int>, id: int, x: T)
    requires UniqueKeys(rows, key)
    requires Find(rows, key, id) == Some(x)
    ensures Resolve(rows, key, ids + {id}) == Resolve(rows, key, ids) + {x}
  {
    forall y | y in rows && key(y) == id ensures y == x {
      FindStored(rows, key, y);
    }
  }

  /** Every listed id that is stored is matched by exactly one resolved row. */
  lemma ResolvedKeys<T(!new)>(rows: seq<T>, key: T -> int, ids: set<int>)
    requires UniqueKeys(rows, key)
    ensures (set x | x in Resolve(rows, key, ids) :: key(x)) == ids * Keys(rows, key)
    ensures forall x, y :: x in Resolve(rows, key, ids) && y in Resolve(rows, key, ids) && key(x) == key(y) ==> x == y
  {
    forall x, y | x in Resolve(rows, key, ids) && y in Resolve(rows, key, ids) && key(x) == key(y)
      ensures x == y
    {
      FindStored(rows, key, x);
      FindStored(rows, key, y);
    }
    forall x | x in Resolve(rows, key, ids) ensures key(x) in Keys(rows, key) {
      KeysOf(rows, key, key(x));
    }
    forall id | id in ids * Keys(rows, key) ensures id in (set x | x in Resolve(rows, key, ids) :: key(x)) {
      var x := Find(rows, key, id).value;
      assert x in Resolve(rows, key, ids);
    }
  }
}
