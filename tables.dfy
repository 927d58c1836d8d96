/** Tables as values and the four query shapes the handlers use on them:
    select-where (`Filter`), select-first (`First`), inner join with a
    projection (`FilterMap`) and update-where (`UpdateWhere`). */
module Tables {
  import opened Types

  /** The rows of a table in insertion order and the next value of its
      serial `id` column. */
  datatype Table<T> = Table(rows: seq<T>, nextId: Id)

  /** What a write produces: the handler's result and the table after it. */
  datatype Outcome<R, T> = Outcome(result: R, table: Table<T>)

  /** A freshly created table: no rows, the serial starts at 1. */
  function Empty<T>(): Table<T> {
    Table([], 1)
  }

  /** An insert: the row goes last and the serial advances. */
  function Insert<T>(t: Table<T>, row: T): Table<T> {
    Table(t.rows + [row], t.nextId + 1)
  }

  /** An insert whose row takes the next serial value keeps the serial key valid. */
  lemma InsertKeepsIds<T>(t: Table<T>, row: T, key: T -> Id)
    requires IdsValid(t, key) && key(row) == t.nextId
    ensures IdsValid(Insert(t, row), key)
  {
  }

  /** An update that keeps every row's key keeps the serial key valid. */
  lemma SameKeysKeepIds<T>(t: Table<T>, rows: seq<T>, key: T -> Id)
    requires IdsValid(t, key) && |rows| == |t.rows|
    requires forall i :: 0 <= i < |rows| ==> key(rows[i]) == key(t.rows[i])
    ensures IdsValid(Table(rows, t.nextId), key)
  {
  }

  /** Keys strictly increase along the rows. */
  ghost predicate IncreasingKeys<T>(rows: seq<T>, key: T -> Id) {
    forall i, j :: 0 <= i < j < |rows| ==> key(rows[i]) < key(rows[j])
  }

  /** The serial primary key of a table: every id lies in [1, nextId) and the
      ids increase in insertion order, so no two rows share one. */
  ghost predicate IdsValid<T>(t: Table<T>, key: T -> Id) {
    && 1 <= t.nextId
    && (forall i :: 0 <= i < |t.rows| ==> 1 <= key(t.rows[i]) < t.nextId)
    && IncreasingKeys(t.rows, key)
  }

  /** `select ... where p`: the matching rows, in table order. */
  function Filter<T(!new)>(s: seq<T>, p: T -> bool): (r: seq<T>)
    ensures |r| <= |s|
    ensures forall x :: x in r <==> x in s && p(x)
  {
    if s == [] then []
    else
      assert s == [s[0]] + s[1..];
      if p(s[0]) then [s[0]] + Filter(s[1..], p) else Filter(s[1..], p)
  }

  /** A filter keeps every matching row as often as it occurs and drops the others. */
  lemma {:induction false} FilterCounts<T(!new)>(s: seq<T>, p: T -> bool)
    ensures forall x :: multiset(Filter(s, p))[x] == if p(x) then multiset(s)[x] else 0
  {
    if s != [] {
      FilterCounts(s[1..], p);
      assert s == [s[0]] + s[1..];
    }
  }

  /** `results[0]` of a `select ... where p`, or null when nothing matches. */
  function First<T>(s: seq<T>, p: T -> bool): (r: Option<T>)
    ensures r.None? <==> forall i :: 0 <= i < |s| ==> !p(s[i])
    ensures r.Some? ==> r.value in s && p(r.value)
    ensures r.Some? ==> exists i :: 0 <= i < |s| && s[i] == r.value && forall j :: 0 <= j < i ==> !p(s[j])
  {
    if s == [] then None
    else if p(s[0]) then Some(s[0])
    else
      var r := First(s[1..], p);
      assert r.Some? ==> exists i :: 0 <= i < |s| && s[i] == r.value && forall j :: 0 <= j < i ==> !p(s[j]) by {
        if r.Some? {
          var k :| 0 <= k < |s[1..]| && s[1..][k] == r.value && forall j :: 0 <= j < k ==> !p(s[1..][j]);
          assert s[k + 1] == r.value;
          assert forall j :: 0 <= j < k + 1 ==> !p(s[j]) by {
            forall j | 0 <= j < k + 1 ensures !p(s[j]) {
              if j > 0 { assert s[j] == s[1..][j - 1]; }
            }
          }
        }
      }
      r
  }

  /** An inner join followed by a projection: every row for which `f` yields a
      value contributes that value, in table order. */
  function FilterMap<T(!new), U(!new)>(s: seq<T>, f: T -> Option<U>): (r: seq<U>)
    ensures |r| <= |s|
  {
    if s == [] then []
    else
      match f(s[0])
      case Some(y) => [y] + FilterMap(s[1..], f)
      case None => FilterMap(s[1..], f)
  }

  /** The join yields exactly the values `f` gives some row. */
  lemma {:induction false} FilterMapMembers<T(!new), U(!new)>(s: seq<T>, f: T -> Option<U>)
    ensures forall y :: y in FilterMap(s, f) <==> exists x :: x in s && f(x) == Some(y)
  {
    if s != [] {
      FilterMapMembers(s[1..], f);
      assert forall x :: x in s <==> x == s[0] || x in s[1..];
    }
  }

  /** The join yields one value per kept row, in table order. */
  lemma {:induction false} FilterMapKept<T(!new), U(!new)>(s: seq<T>, f: T -> Option<U>)
    ensures var r := FilterMap(s, f);
      |r| == |Kept(s, f)| && forall i :: 0 <= i < |r| ==> f(Kept(s, f)[i]) == Some(r[i])
  {
    if s != [] {
      FilterMapKept(s[1..], f);
      var rest := FilterMap(s[1..], f);
      assert s == [s[0]] + s[1..];
      match f(s[0])
      case Some(y) =>
        assert Kept(s, f) == [s[0]] + Kept(s[1..], f);
        assert forall i :: 1 <= i < |[y] + rest| ==> ([y] + rest)[i] == rest[i - 1];
      case None =>
        assert Kept(s, f) == Kept(s[1..], f);
    }
  }

  /** The rows an inner join keeps: those for which `f` yields a value. */
  function Kept<T(!new), U>(s: seq<T>, f: T -> Option<U>): seq<T> {
    Filter(s, (x: T) => f(x).Some?)
  }

  /** The kept rows are those of any condition that agrees with the join on every row. */
  lemma {:induction false} KeptSame<T(!new), U>(s: seq<T>, f: T -> Option<U>, q: T -> bool)
    requires forall i :: 0 <= i < |s| ==> f(s[i]).Some? == q(s[i])
    ensures Kept(s, f) == Filter(s, q)
  {
    if s != [] {
      KeptSame(s[1..], f, q);
    }
  }

  /** A join whose kept rows are those `q` selects, each projected by `g`,
      yields one value per selected row, in table order. */
  lemma FilterMapByRows<T(!new), U(!new)>(s: seq<T>, f: T -> Option<U>, q: T -> bool, g: T -> Option<U>)
    requires forall i :: 0 <= i < |s| ==> f(s[i]).Some? == q(s[i])
    requires forall i :: 0 <= i < |s| ==> q(s[i]) ==> f(s[i]) == g(s[i])
    ensures var r, kept := FilterMap(s, f), Filter(s, q);
      |r| == |kept| && forall i :: 0 <= i < |r| ==> g(kept[i]) == Some(r[i])
  {
    KeptSame(s, f, q);
    FilterMapKept(s, f);
    var r, kept := FilterMap(s, f), Filter(s, q);
    forall i | 0 <= i < |r| ensures g(kept[i]) == Some(r[i]) {
      assert kept[i] in kept;
      var j :| 0 <= j < |s| && s[j] == kept[i];
    }
  }

  /** `update ... set f where p`: every matching row is rewritten, the others
      stay, and the row order is kept. */
  function UpdateWhere<T>(s: seq<T>, p: T -> bool, f: T -> T): (r: seq<T>)
    ensures |r| == |s|
    ensures forall i :: 0 <= i < |s| ==> r[i] == if p(s[i]) then f(s[i]) else s[i]
  {
    seq(|s|, i requires 0 <= i < |s| => if p(s[i]) then f(s[i]) else s[i])
  }

  /** `and(...conditions)`: every condition of the list holds of the row. */
  predicate AllOf<C, T>(cs: seq<C>, holds: (C, T) -> bool, x: T) {
    forall i :: 0 <= i < |cs| ==> holds(cs[i], x)
  }

  /** Pushing two lists of conditions one after the other conjoins them. */
  lemma AllOfConcat<C, T>(a: seq<C>, b: seq<C>, holds: (C, T) -> bool, x: T)
    ensures AllOf(a + b, holds, x) <==> AllOf(a, holds, x) && AllOf(b, holds, x)
  {
    if AllOf(a, holds, x) && AllOf(b, holds, x) {
      forall i | 0 <= i < |a + b| ensures holds((a + b)[i], x) {
        if i < |a| {
          assert (a + b)[i] == a[i];
        } else {
          assert (a + b)[i] == b[i - |a|];
        }
      }
    }
    if AllOf(a + b, holds, x) {
      forall i | 0 <= i < |a| ensures holds(a[i], x) {
        assert (a + b)[i] == a[i];
      }
      forall i | 0 <= i < |b| ensures holds(b[i], x) {
        assert (a + b)[i + |a|] == b[i];
      }
    }
  }

  /** A filter every row passes keeps the rows as they are. */
  lemma {:induction false} FilterAll<T(!new)>(s: seq<T>, p: T -> bool)
    requires forall i :: 0 <= i < |s| ==> p(s[i])
    ensures Filter(s, p) == s
  {
    if s != [] {
      FilterAll(s[1..], p);
    }
  }

  /** Filtering a table with one more row at the end filters the old rows and then that row. */
  lemma {:induction false} FilterAppend<T(!new)>(s: seq<T>, x: T, p: T -> bool)
    ensures Filter(s + [x], p) == Filter(s, p) + (if p(x) then [x] else [])
  {
    if s == [] {
      assert [] + [x] == [x] && [x][1..] == [];
    } else {
      assert (s + [x])[0] == s[0] && (s + [x])[1..] == s[1..] + [x];
      FilterAppend(s[1..], x, p);
      if p(s[0]) {
        var last := if p(x) then [x] else [];
        assert [s[0]] + (Filter(s[1..], p) + last) == ([s[0]] + Filter(s[1..], p)) + last;
      }
    }
  }

  /** `n` copies of one row, as an inner join yields a row once per match. */
  function Repeat<T>(x: T, n: nat): (r: seq<T>)
    ensures |r| == n && forall i :: 0 <= i < n ==> r[i] == x
  {
    seq(n, _ => x)
  }

  /** A filter no row passes yields nothing. */
  lemma {:induction false} FilterNone<T(!new)>(s: seq<T>, p: T -> bool)
    requires forall i :: 0 <= i < |s| ==> !p(s[i])
    ensures Filter(s, p) == []
  {
    if s != [] {
      FilterNone(s[1..], p);
    }
  }

  lemma IncreasingTail<T>(s: seq<T>, key: T -> Id)
    requires s != [] && IncreasingKeys(s, key)
    ensures IncreasingKeys(s[1..], key)
  {
  }

  lemma IncreasingCons<T>(x: T, rest: seq<T>, key: T -> Id)
    requires IncreasingKeys(rest, key)
    requires forall j :: 0 <= j < |rest| ==> key(x) < key(rest[j])
    ensures IncreasingKeys([x] + rest, key)
  {
  }

  /** A delete keeps the order of the rows that remain, so increasing keys stay increasing. */
  lemma {:induction false} FilterKeepsIncreasing<T(!new)>(s: seq<T>, p: T -> bool, key: T -> Id)
    requires IncreasingKeys(s, key)
    ensures IncreasingKeys(Filter(s, p), key)
  {
    if s != [] {
      IncreasingTail(s, key);
      FilterKeepsIncreasing(s[1..], p, key);
      var rest := Filter(s[1..], p);
      if p(s[0]) {
        forall j | 0 <= j < |rest| ensures key(s[0]) < key(rest[j]) {
          assert rest[j] in s[1..];
          var k :| 0 <= k < |s[1..]| && s[1..][k] == rest[j];
          assert s[k + 1] == rest[j];
        }
        IncreasingCons(s[0], rest, key);
      }
    }
  }

  /** A delete keeps the serial primary key valid. */
  lemma FilterKeepsIds<T(!new)>(t: Table<T>, p: T -> bool, key: T -> Id)
    requires IdsValid(t, key)
    ensures IdsValid(Table(Filter(t.rows, p), t.nextId), key)
  {
    FilterKeepsIncreasing(t.rows, p, key);
    forall x | x in Filter(t.rows, p) ensures 1 <= key(x) < t.nextId {
      var i :| 0 <= i < |t.rows| && t.rows[i] == x;
    }
  }

  /** `ok` holds of every pair of rows, taken in table order. */
  ghost predicate Pairwise<T>(rows: seq<T>, ok: (T, T) -> bool) {
    forall i, j :: 0 <= i < j < |rows| ==> ok(rows[i], rows[j])
  }

  lemma PairwiseTail<T>(s: seq<T>, ok: (T, T) -> bool)
    requires s != [] && Pairwise(s, ok)
    ensures Pairwise(s[1..], ok)
  {
  }

  lemma PairwiseCons<T>(x: T, rest: seq<T>, ok: (T, T) -> bool)
    requires Pairwise(rest, ok)
    requires forall j :: 0 <= j < |rest| ==> ok(x, rest[j])
    ensures Pairwise([x] + rest, ok)
  {
  }

  /** A delete keeps any property of pairs of rows that held of the whole table. */
  lemma {:induction false} FilterKeepsPairwise<T(!new)>(s: seq<T>, p: T -> bool, ok: (T, T) -> bool)
    requires Pairwise(s, ok)
    ensures Pairwise(Filter(s, p), ok)
  {
    if s != [] {
      PairwiseTail(s, ok);
      FilterKeepsPairwise(s[1..], p, ok);
      var rest := Filter(s[1..], p);
      if p(s[0]) {
        forall j | 0 <= j < |rest| ensures ok(s[0], rest[j]) {
          assert rest[j] in s[1..];
          var k :| 0 <= k < |s[1..]| && s[1..][k] == rest[j];
          assert s[k + 1] == rest[j];
        }
        PairwiseCons(s[0], rest, ok);
      }
    }
  }
}
