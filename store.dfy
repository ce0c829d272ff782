/**
 * The generic table store of cruds/base.py (CRUDBase), over an in-memory table.
 *
 * A table keeps its rows in the order the storage engine returns them
 * (taken to be insertion order, which SQL itself does not promise), a map
 * from primary key to row, and the next key the engine will assign. A
 * filter is a predicate on the entity's columns, and a list of filters is
 * their conjunction, as SQL WHERE clauses are.
 */
module Store {
  import opened Common

  /** A stored record: primary key, created_at, updated_at and the entity's own columns. */
  datatype Row<R> = Row(id: int, createdAt: int, updatedAt: int, rec: R)

  /** No element occurs twice. */
  predicate Distinct<T(==)>(s: seq<T>)
  {
    |s| == 0 || (s[0] !in s[1..] && Distinct(s[1..]))
  }

  lemma {:induction false} DistinctAppend<T>(s: seq<T>, x: T)
    requires Distinct(s) && x !in s
    ensures Distinct(s + [x])
  {
    if |s| > 0 {
      assert (s + [x])[1..] == s[1..] + [x];
      DistinctAppend(s[1..], x);
    }
  }

  /** Distinct keys: as many keys as positions. */
  lemma {:induction false} DistinctCard(s: seq<int>)
    requires Distinct(s)
    ensures |set k | k in s| == |s|
  {
    if |s| > 0 {
      DistinctCard(s[1..]);
      assert (set k | k in s) == (set k | k in s[1..]) + {s[0]};
    }
  }

  /** The key sequence with every occurrence of x dropped. */
  function Without(s: seq<int>, x: int): (r: seq<int>)
    ensures forall k :: k in r <==> k in s && k != x
    ensures Distinct(s) ==> Distinct(r)
  {
    if |s| == 0 then []
    else if s[0] == x then Without(s[1..], x)
    else
      var t := Without(s[1..], x);
      assert ([s[0]] + t)[1..] == t;
      [s[0]] + t
  }

  /** The record satisfies every filter of the list (the conjunction). */
  predicate SatisfiesAll<R>(rec: R, filters: seq<R -> bool>)
  {
    forall i :: 0 <= i < |filters| ==> filters[i](rec)
  }

  /** Conjunction over a concatenation is the conjunction of the two parts. */
  lemma {:induction false} SatisfiesAllAppend<R>(rec: R, fs: seq<R -> bool>, gs: seq<R -> bool>)
    ensures SatisfiesAll(rec, fs + gs) <==> SatisfiesAll(rec, fs) && SatisfiesAll(rec, gs)
  {
    if SatisfiesAll(rec, fs) && SatisfiesAll(rec, gs) {
      forall i | 0 <= i < |fs + gs|
        ensures (fs + gs)[i](rec)
      {
        if i < |fs| {
          assert (fs + gs)[i] == fs[i];
        } else {
          assert (fs + gs)[i] == gs[i - |fs|];
        }
      }
    }
    if SatisfiesAll(rec, fs + gs) {
      forall i | 0 <= i < |fs|
        ensures fs[i](rec)
      {
        assert (fs + gs)[i] == fs[i];
      }
      forall i | 0 <= i < |gs|
        ensures gs[i](rec)
      {
        assert (fs + gs)[|fs| + i] == gs[i];
      }
    }
  }

  /** A row passes a WHERE clause: its key is in `keys` (when given) and it satisfies all filters. */
  predicate Chosen<R>(x: Row<R>, keys: Option<seq<int>>, filters: seq<R -> bool>)
  {
    (keys.None? || x.id in keys.value) && SatisfiesAll(x.rec, filters)
  }

  /** The rows of s, in order, that pass the WHERE clause. */
  function Select<R(==,!new)>(s: seq<Row<R>>, keys: Option<seq<int>>, filters: seq<R -> bool>): (r: seq<Row<R>>)
    ensures |r| <= |s|
    ensures forall x :: x in r <==> x in s && Chosen(x, keys, filters)
    ensures Distinct(s) ==> Distinct(r)
  {
    if |s| == 0 then []
    else if Chosen(s[0], keys, filters) then
      var t := Select(s[1..], keys, filters);
      assert ([s[0]] + t)[1..] == t;
      [s[0]] + t
    else Select(s[1..], keys, filters)
  }

  /** Filtering by a concatenation of filter lists is filtering by one list and then by the other. */
  lemma {:induction false} SelectIntersect<R(!new)>(s: seq<Row<R>>, keys: Option<seq<int>>, fs: seq<R -> bool>, gs: seq<R -> bool>)
    ensures Select(s, keys, fs + gs) == Select(Select(s, keys, fs), None, gs)
  {
    if |s| > 0 {
      SatisfiesAllAppend(s[0].rec, fs, gs);
      SelectIntersect(s[1..], keys, fs, gs);
      if Chosen(s[0], keys, fs) {
        var t := Select(s[1..], keys, fs);
        assert ([s[0]] + t)[0] == s[0];
        assert ([s[0]] + t)[1..] == t;
      }
    }
  }

  /** Selecting from a concatenation selects from each part, keeping the parts in order. */
  lemma {:induction false} SelectAppend<R(!new)>(s: seq<Row<R>>, t: seq<Row<R>>, keys: Option<seq<int>>, filters: seq<R -> bool>)
    ensures Select(s + t, keys, filters) == Select(s, keys, filters) + Select(t, keys, filters)
  {
    if |s| > 0 {
      assert (s + t)[0] == s[0];
      assert (s + t)[1..] == s[1..] + t;
      SelectAppend(s[1..], t, keys, filters);
    } else {
      assert s + t == t;
    }
  }

  /** When no row passes the WHERE clause, the selection is empty. */
  lemma {:induction false} SelectNone<R(!new)>(s: seq<Row<R>>, keys: Option<seq<int>>, filters: seq<R -> bool>)
    requires forall x :: x in s ==> !Chosen(x, keys, filters)
    ensures Select(s, keys, filters) == []
  {
    if |s| > 0 {
      assert s[0] in s;
      assert forall x :: x in s[1..] ==> x in s;
      SelectNone(s[1..], keys, filters);
    }
  }

  /** An empty filter list and no key restriction select every row, in order. */
  lemma {:induction false} SelectAll<R(!new)>(s: seq<Row<R>>)
    ensures Select(s, None, []) == s
  {
    if |s| > 0 {
      SelectAll(s[1..]);
      assert s == [s[0]] + s[1..];
    }
  }

  /** OFFSET skip LIMIT limit. */
  function Window<T>(s: seq<T>, skip: nat, limit: nat): (r: seq<T>)
    ensures |r| <= limit
    ensures |r| == if skip >= |s| then 0 else if limit <= |s| - skip then limit else |s| - skip
    ensures forall i :: 0 <= i < |r| ==> r[i] == s[skip + i]
  {
    if skip >= |s| then []
    else if limit >= |s| - skip then s[skip..]
    else s[skip..skip + limit]
  }

  lemma WindowMembers<T>(s: seq<T>, skip: nat, limit: nat, x: T)
    requires x in Window(s, skip, limit)
    ensures x in s
  {
    var r := Window(s, skip, limit);
    var i :| 0 <= i < |r| && r[i] == x;
    assert s[skip + i] == x;
  }

  /** Two consecutive pages of size n are the page of size 2n at the same offset. */
  lemma ConsecutivePages<T>(s: seq<T>, skip: nat, n: nat)
    ensures Window(s, skip, n) + Window(s, skip + n, n) == Window(s, skip, 2 * n)
  {
    var a, b, c := Window(s, skip, n), Window(s, skip + n, n), Window(s, skip, 2 * n);
    assert |a + b| == |c|;
    forall i | 0 <= i < |c|
      ensures (a + b)[i] == c[i]
    {
      if i < |a| {
      } else {
        assert b[i - |a|] == s[skip + n + (i - |a|)];
      }
    }
  }

  /** Ten rows read as skip=0&limit=5 and skip=5&limit=5: two full pages that together are all the rows. */
  lemma TenRowsTwoPages<T>(s: seq<T>)
    requires |s| == 10
    ensures |Window(s, 0, 5)| == 5 && |Window(s, 5, 5)| == 5
    ensures Window(s, 0, 5) + Window(s, 5, 5) == s
  {
    ConsecutivePages(s, 0, 5);
    assert Window(s, 0, 10) == s;
  }

  /** a comes no later than b under ORDER BY ... ASC (asc) or DESC (otherwise). */
  predicate InOrder(a: int, b: int, asc: bool)
  {
    if asc then a <= b else a >= b
  }

  predicate Ordered<T>(s: seq<T>, key: T -> int, asc: bool)
  {
    forall i, j :: 0 <= i < j < |s| ==> InOrder(key(s[i]), key(s[j]), asc)
  }

  /** Putting h in front of an ordered t keeps it ordered when h comes no later than anything in t. */
  lemma OrderedCons<T>(h: T, t: seq<T>, key: T -> int, asc: bool)
    requires Ordered(t, key, asc)
    requires forall y :: y in t ==> InOrder(key(h), key(y), asc)
    ensures Ordered([h] + t, key, asc)
  {
    var s := [h] + t;
    forall i, j | 0 <= i < j < |s|
      ensures InOrder(key(s[i]), key(s[j]), asc)
    {
      assert s[j] == t[j - 1];
      if i > 0 {
        assert s[i] == t[i - 1];
      } else {
        assert t[j - 1] in t;
      }
    }
  }

  function Insert<T(==)>(x: T, s: seq<T>, key: T -> int, asc: bool): (r: seq<T>)
    requires Ordered(s, key, asc)
    ensures Ordered(r, key, asc)
    ensures multiset(r) == multiset(s) + multiset{x}
  {
    if |s| == 0 then [x]
    else if InOrder(key(x), key(s[0]), asc) then
      assert forall y :: y in s ==> InOrder(key(x), key(y), asc) by {
        forall y | y in s ensures InOrder(key(x), key(y), asc) {
          var j :| 0 <= j < |s| && s[j] == y;
          if j > 0 { assert InOrder(key(s[0]), key(s[j]), asc); }
        }
      }
      OrderedCons(x, s, key, asc);
      [x] + s
    else
      var t := Insert(x, s[1..], key, asc);
      assert s == [s[0]] + s[1..];
      assert forall y :: y in t ==> InOrder(key(s[0]), key(y), asc) by {
        forall y | y in t ensures InOrder(key(s[0]), key(y), asc) {
          assert y in multiset(t);
          if y != x {
            assert y in s[1..];
            var j :| 0 <= j < |s[1..]| && s[1..][j] == y;
            assert s[j + 1] == y;
          }
        }
      }
      OrderedCons(s[0], t, key, asc);
      [s[0]] + t
  }

  /** ORDER BY key: a permutation of s in key order. */
  function SortBy<T(==)>(s: seq<T>, key: T -> int, asc: bool): (r: seq<T>)
    ensures Ordered(r, key, asc)
    ensures multiset(r) == multiset(s)
  {
    if |s| == 0 then []
    else
      assert s == [s[0]] + s[1..];
      Insert(s[0], SortBy(s[1..], key, asc), key, asc)
  }

  /** ORDER BY: sorted by the key when one is given, ascending only for "asc"; the rows as they are otherwise. */
  function Arranged<R(==)>(s: seq<Row<R>>, orderBy: Option<Row<R> -> int>, order: Option<string>): (r: seq<Row<R>>)
    ensures multiset(r) == multiset(s)
    ensures orderBy.Some? ==> Ordered(r, orderBy.value, order == Some("asc"))
    ensures orderBy.None? ==> r == s
  {
    if orderBy.Some? then SortBy(s, orderBy.value, order == Some("asc")) else s
  }

  /** The rows for a key sequence, in that sequence's order. */
  function RowsOf<R(==,!new)>(ids: seq<int>, rows: map<int, Row<R>>): (r: seq<Row<R>>)
    requires forall i :: 0 <= i < |ids| ==> ids[i] in rows && rows[ids[i]].id == ids[i]
    ensures |r| == |ids|
    ensures forall i :: 0 <= i < |ids| ==> r[i] == rows[ids[i]]
    ensures forall x :: x in r <==> x.id in ids && x.id in rows && rows[x.id] == x
    ensures Distinct(ids) ==> Distinct(r)
  {
    if |ids| == 0 then []
    else
      var t := RowsOf(ids[1..], rows);
      assert ([rows[ids[0]]] + t)[1..] == t;
      assert ids == [ids[0]] + ids[1..];
      [rows[ids[0]]] + t
  }

  /** The row after an update that leaves the columns as rec: updated_at moves to now only when a column changed. */
  function Updated<R(==)>(row: Row<R>, rec: R, now: int): Row<R>
  {
    row.(rec := rec, updatedAt := if rec != row.rec then now else row.updatedAt)
  }

  /** The columns after the `setattr` calls of `changes`, one after another. */
  function Apply<R, C>(setField: (R, C) -> R, rec: R, changes: seq<C>): R
    decreases |changes|
  {
    if |changes| == 0 then rec
    else setField(Apply(setField, rec, changes[..|changes| - 1]), changes[|changes| - 1])
  }

  lemma {:induction false} ApplyAppend<R, C>(setField: (R, C) -> R, rec: R, a: seq<C>, b: seq<C>)
    ensures Apply(setField, rec, a + b) == Apply(setField, Apply(setField, rec, a), b)
    decreases |b|
  {
    if |b| > 0 {
      assert (a + b)[..|a + b| - 1] == a + b[..|b| - 1];
      ApplyAppend(setField, rec, a, b[..|b| - 1]);
    } else {
      assert a + b == a;
    }
  }

  /** An update with no fields leaves the row exactly as it was, timestamps included. */
  lemma EmptyUpdateIsIdentity<R, C>(setField: (R, C) -> R, row: Row<R>, now: int)
    ensures Updated(row, Apply(setField, row.rec, []), now) == row
  {
  }

  /** One table of the store, used through CRUDBase's methods. */
  class Table<R(==,!new)> {
    var ids: seq<int>
    var rows: map<int, Row<R>>
    var nextId: int

    ghost predicate Valid()
      reads this
    {
      && Distinct(ids)
      && (forall k :: k in rows <==> k in ids)
      && (forall k :: k in rows ==> rows[k].id == k && k < nextId)
    }

    constructor ()
      ensures Valid() && ids == [] && rows == map[] && nextId == 1
    {
      ids, rows, nextId := [], map[], 1;
    }

    /** Every row, in the order the engine returns them. */
    function Rows(): (r: seq<Row<R>>)
      reads this
      requires Valid()
      ensures forall x :: x in r <==> x.id in rows && rows[x.id] == x
      ensures Distinct(r)
    {
      assert forall i :: 0 <= i < |ids| ==> ids[i] in rows && rows[ids[i]].id == ids[i] by {
        forall i | 0 <= i < |ids| ensures ids[i] in rows && rows[ids[i]].id == ids[i] {
          var k := ids[i];
          assert k in ids;
          assert (forall j :: j in rows <==> j in ids) && (forall j :: j in rows ==> rows[j].id == j && j < nextId);
          assert k in rows;
        }
      }
      RowsOf(ids, rows)
    }

    /** get_one_by_id: the row whose primary key is id, if it satisfies every filter. */
    function GetOneById(id: int, filters: seq<R -> bool>): (r: Option<Row<R>>)
      reads this
      requires Valid()
      ensures r.Some? <==> id in rows && SatisfiesAll(rows[id].rec, filters)
      ensures r.Some? ==> r.value == rows[id]
    {
      var hits := Select(Rows(), Some([id]), filters);
      assert id in rows && SatisfiesAll(rows[id].rec, filters) ==> rows[id] in hits;
      if |hits| == 0 then None
      else
        assert hits[0] in hits;
        Some(hits[0])
    }

    /** get_many_by_ids: exactly the stored rows whose key is in listIds and that satisfy every filter, each once. */
    function GetManyByIds(listIds: seq<int>, filters: seq<R -> bool>): (r: seq<Row<R>>)
      reads this
      requires Valid()
      ensures forall x :: x in r <==> x.id in rows && rows[x.id] == x && x.id in listIds && SatisfiesAll(x.rec, filters)
      ensures Distinct(r)
    {
      Select(Rows(), Some(listIds), filters)
    }

    /** get_count: the number of rows in the table. */
    function GetCount(): (n: nat)
      reads this
      requires Valid()
      ensures n == |rows| == |Rows()|
    {
      DistinctCard(ids);
      assert forall k :: k in rows.Keys <==> k in (set k | k in ids);
      assert rows.Keys == set k | k in ids;
      |ids|
    }

    /**
     * get_list. Without an explicit query: the rows passing all filters, sorted
     * when orderBy is given (ascending only for order == "asc"), then the
     * skip/limit window. With a query: the rows the query selects, filtered and
     * sorted the same way, and skip/limit are ignored.
     */
    function GetList(skip: nat, limit: nat, query: Option<R -> bool>, filters: seq<R -> bool>,
                     orderBy: Option<Row<R> -> int>, order: Option<string>): (r: seq<Row<R>>)
      reads this
      requires Valid()
      ensures query.None? ==> |r| <= limit
      ensures query.None? ==> r == Window(Arranged(Select(Rows(), None, filters), orderBy, order), skip, limit)
      ensures forall x :: x in r ==> x.id in rows && rows[x.id] == x && SatisfiesAll(x.rec, filters)
                                     && (query.Some? ==> query.value(x.rec))
      ensures query.Some? ==> forall k :: k in rows && SatisfiesAll(rows[k].rec, filters) && query.value(rows[k].rec) ==> rows[k] in r
      ensures orderBy.Some? ==> Ordered(r, orderBy.value, order == Some("asc"))
    {
      var base := if query.Some? then Select(Rows(), None, [query.value]) else Rows();
      var matching := Select(base, None, filters);
      var sorted := Arranged(matching, orderBy, order);
      assert forall x :: x in sorted <==> x in matching by {
        forall x ensures x in sorted <==> x in matching {
          assert x in sorted <==> x in multiset(sorted);
        }
      }
      assert forall x :: x in base ==> x.id in rows && rows[x.id] == x && (query.Some? ==> query.value(x.rec)) by {
        forall x | x in base ensures x.id in rows && rows[x.id] == x && (query.Some? ==> query.value(x.rec)) {
          if query.Some? {
            assert SatisfiesAll(x.rec, [query.value]);
            assert [query.value][0] == query.value;
          }
        }
      }
      assert query.Some? ==> forall k :: k in rows && query.value(rows[k].rec) ==> rows[k] in base by {
        if query.Some? {
          forall k | k in rows && query.value(rows[k].rec) ensures rows[k] in base {
            assert [query.value][0] == query.value;
            assert SatisfiesAll(rows[k].rec, [query.value]);
          }
        }
      }
      var r := if query.None? then Window(sorted, skip, limit) else sorted;
      assert forall x :: x in r ==> x in sorted by {
        forall x | x in r ensures x in sorted {
          if query.None? { WindowMembers(sorted, skip, limit, x); }
        }
      }
      r
    }

    /**
     * create: insert rec under the next key with both timestamps at now. When
     * the engine's integrity check rejects the row (accepted is false) the
     * session rolls back and the result is 409.
     */
    method Create(rec: R, now: int, accepted: bool) returns (r: Result<Row<R>>)
      requires Valid()
      modifies this
      ensures Valid()
      ensures !accepted ==> r == Err(Conflict) && rows == old(rows) && ids == old(ids) && nextId == old(nextId)
      ensures accepted ==> && r == Ok(Row(old(nextId), now, now, rec))
                           && old(nextId) !in old(rows)
                           && rows == old(rows)[old(nextId) := r.value]
                           && ids == old(ids) + [old(nextId)]
                           && nextId == old(nextId) + 1
    {
      if !accepted {
        return Err(Conflict);
      }
      var id := nextId;
      var row := Row(id, now, now, rec);
      DistinctAppend(ids, id);
      ids := ids + [id];
      rows := rows[id := row];
      nextId := nextId + 1;
      r := Ok(row);
    }

    /**
     * update: set each field of `changes` on the stored row, one after
     * another, then write the row back; updated_at moves to now only if a
     * column changed.
     */
    method Update<C>(id: int, changes: seq<C>, setField: (R, C) -> R, now: int) returns (r: Row<R>)
      requires Valid() && id in rows
      modifies this
      ensures Valid()
      ensures r == Updated(old(rows[id]), Apply(setField, old(rows[id]).rec, changes), now)
      ensures rows == old(rows)[id := r] && ids == old(ids) && nextId == old(nextId)
    {
      var current := rows[id].rec;
      var i := 0;
      while i < |changes|
        invariant 0 <= i <= |changes|
        invariant current == Apply(setField, old(rows[id]).rec, changes[..i])
      {
        assert changes[..i + 1][..i] == changes[..i];
        current := setField(current, changes[i]);
        i := i + 1;
      }
      assert changes[..|changes|] == changes;
      r := Updated(rows[id], current, now);
      rows := rows[id := r];
    }

    /** remove: delete the row with that key and return it; a missing key raises NoResultFound (500). */
    method Remove(id: int) returns (r: Result<Row<R>>)
      requires Valid()
      modifies this
      ensures Valid()
      ensures id !in old(rows) ==> r == Err(Internal) && rows == old(rows) && ids == old(ids)
      ensures id in old(rows) ==> r == Ok(old(rows)[id]) && rows == old(rows) - {id} && ids == Without(old(ids), id)
      ensures nextId == old(nextId)
    {
      if id !in rows {
        return Err(Internal);
      }
      r := Ok(rows[id]);
      ids := Without(ids, id);
      rows := rows - {id};
    }
  }
}
