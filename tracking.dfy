/**
 * The ORM's view of one table: the committed rows, the changes staged
 * since the last commit, and the key generator for new rows.
 */
module Tracking {
  import opened Wrappers
  import opened Entities

  /** A change the change tracker records and the next commit applies. */
  datatype Change<T> = Insert(id: int, entity: T) | Modify(id: int, entity: T) | Remove(id: int)

  /**
   * One staged change applied to the committed rows. An insert on a key in
   * use, or an update or removal of a missing row, cannot be applied: the
   * storage engine reports it and the commit fails.
   */
  function ApplyOne<T>(rows: map<int, T>, change: Change<T>): (r: Option<map<int, T>>)
    ensures r.Some? <==> (change.Insert? <==> change.id !in rows)
    ensures r.Some? ==> r.value.Keys == if change.Remove? then rows.Keys - {change.id} else rows.Keys + {change.id}
    ensures r.Some? ==> forall id :: id in rows && id != change.id ==> id in r.value && r.value[id] == rows[id]
    ensures r.Some? && !change.Remove? ==> r.value[change.id] == change.entity
  {
    match change
    case Insert(id, e) => if id in rows then None else Some(rows[id := e])
    case Modify(id, e) => if id in rows then Some(rows[id := e]) else None
    case Remove(id) => if id in rows then Some(rows - {id}) else None
  }

  /** The Ids a sequence of changes inserts. */
  function InsertedIds<T>(changes: seq<Change<T>>): (ids: set<int>)
  {
    set i | 0 <= i < |changes| && changes[i].Insert? :: changes[i].id
  }

  /** The Ids inserted after the first change are among those inserted by the whole sequence. */
  lemma InsertedIdsTail<T>(changes: seq<Change<T>>)
    requires changes != []
    ensures InsertedIds(changes[1..]) <= InsertedIds(changes)
    ensures changes[0].Insert? ==> changes[0].id in InsertedIds(changes)
  {
    forall id | id in InsertedIds(changes[1..]) ensures id in InsertedIds(changes) {
      var i :| 0 <= i < |changes[1..]| && changes[1..][i].Insert? && changes[1..][i].id == id;
      assert changes[i + 1] == changes[1..][i];
    }
  }

  /**
   * The rows after a commit of `changes`, in order; None when the commit
   * fails as a whole. A commit creates no key beyond the committed ones and
   * the inserted ones.
   */
  function Apply<T>(rows: map<int, T>, changes: seq<Change<T>>): (r: Option<map<int, T>>)
    ensures r.Some? ==> r.value.Keys <= rows.Keys + InsertedIds(changes)
    decreases |changes|
  {
    if changes == [] then Some(rows)
    else
      match ApplyOne(rows, changes[0])
      case None => None
      case Some(next) =>
        InsertedIdsTail(changes);
        Apply(next, changes[1..])
  }

  /** A commit of `a + b` is a commit of `a` followed by a commit of `b`. */
  lemma {:induction false} ApplyConcat<T>(rows: map<int, T>, a: seq<Change<T>>, b: seq<Change<T>>)
    ensures Apply(rows, a + b) == match Apply(rows, a) case None => None case Some(mid) => Apply(mid, b)
    decreases |a|
  {
    if a == [] {
      assert a + b == b;
    } else {
      assert (a + b)[0] == a[0];
      assert (a + b)[1..] == a[1..] + b;
      match ApplyOne(rows, a[0])
      case None =>
      case Some(next) => ApplyConcat(next, a[1..], b);
    }
  }

  /** Committing no change succeeds and changes nothing. */
  lemma ApplyNone<T>(rows: map<int, T>)
    ensures Apply(rows, []) == Some(rows)
  {
  }

  /** Committing a single change is applying that change. */
  lemma ApplySingle<T>(rows: map<int, T>, change: Change<T>)
    ensures Apply(rows, [change]) == ApplyOne(rows, change)
  {
    assert [change][1..] == [];
  }

  /** A commit leaves every row that no change names as it was. */
  lemma {:induction false} ApplyFrame<T>(rows: map<int, T>, changes: seq<Change<T>>, id: int)
    requires Apply(rows, changes).Some?
    requires forall i :: 0 <= i < |changes| ==> changes[i].id != id
    ensures id in Apply(rows, changes).value <==> id in rows
    ensures id in rows ==> Apply(rows, changes).value[id] == rows[id]
    decreases |changes|
  {
    if changes != [] {
      var next := ApplyOne(rows, changes[0]).value;
      forall i | 0 <= i < |changes[1..]| ensures changes[1..][i].id != id {
        assert changes[1..][i] == changes[i + 1];
      }
      ApplyFrame(next, changes[1..], id);
    }
  }

  /** Some element of a non-empty set, chosen arbitrarily (the order in which a query enumerates rows). */
  method Pick<K>(s: set<K>) returns (x: K)
    requires s != {}
    ensures x in s
  {
    x :| x in s;
  }

  /** Staged removals of the given Ids, in that order. */
  function Removals<T>(ids: seq<int>): (changes: seq<Change<T>>)
  {
    seq(|ids|, i requires 0 <= i < |ids| => Remove(ids[i]))
  }

  /** `ids` names every key of `keys` exactly once. */
  ghost predicate Enumerates(ids: seq<int>, keys: set<int>)
  {
    && (forall i, j :: 0 <= i < j < |ids| ==> ids[i] != ids[j])
    && (forall i :: 0 <= i < |ids| ==> ids[i] in keys)
    && (forall k :: k in keys ==> exists i :: 0 <= i < |ids| && ids[i] == k)
  }

  /** Removing every row, each once, in any order, succeeds and leaves the table empty. */
  lemma {:induction false} RemoveEveryRow<T>(rows: map<int, T>, ids: seq<int>)
    requires Enumerates(ids, rows.Keys)
    ensures Apply(rows, Removals<T>(ids)) == Some(map[])
    decreases |ids|
  {
    if ids == [] {
      assert forall k :: k !in rows;
      assert rows == map[];
    } else {
      var next := rows - {ids[0]};
      assert Enumerates(ids[1..], next.Keys) by {
        forall i | 0 <= i < |ids[1..]| ensures ids[1..][i] in next.Keys {
          assert ids[1..][i] == ids[i + 1] != ids[0];
        }
        forall k | k in next.Keys ensures exists i :: 0 <= i < |ids[1..]| && ids[1..][i] == k {
          var i :| 0 <= i < |ids| && ids[i] == k;
          assert i != 0;
          assert ids[1..][i - 1] == k;
        }
      }
      assert Removals<T>(ids)[1..] == Removals<T>(ids[1..]);
      RemoveEveryRow(next, ids[1..]);
    }
  }

  /**
   * `all` lists each row of `rows` exactly once, with its Id: the contract
   * of a query that returns the table, in no particular order.
   */
  ghost predicate Lists<T>(all: seq<Row<T>>, rows: map<int, T>)
  {
    && (forall i :: 0 <= i < |all| ==> all[i].id in rows && rows[all[i].id] == all[i].entity)
    && (forall id :: id in rows ==> exists i :: 0 <= i < |all| && all[i].id == id)
    && (forall i, j :: 0 <= i < j < |all| ==> all[i].id != all[j].id)
  }

  /** A listing has exactly as many entries as the table has rows. */
  lemma {:induction false} ListsCount<T>(all: seq<Row<T>>, rows: map<int, T>)
    requires Lists(all, rows)
    ensures |all| == |rows|
    decreases |all|
  {
    if all == [] {
      assert forall id :: id !in rows;
      assert rows.Keys == {};
    } else {
      var pre := all[..|all| - 1];
      var last := all[|all| - 1];
      var rest := rows - {last.id};
      forall i | 0 <= i < |pre| ensures pre[i].id in rest && rest[pre[i].id] == pre[i].entity {
        assert pre[i] == all[i];
      }
      forall id | id in rest ensures exists i :: 0 <= i < |pre| && pre[i].id == id {
        var i :| 0 <= i < |all| && all[i].id == id;
        assert pre[i] == all[i];
      }
      forall i, j | 0 <= i < j < |pre| ensures pre[i].id != pre[j].id {
        assert pre[i] == all[i] && pre[j] == all[j];
      }
      ListsCount(pre, rest);
    }
  }

  /**
   * The state of one table (the ORM's DbSet): the committed rows, the
   * changes staged since the last commit, and the next key the store will
   * generate for an inserted row.
   */
  class DbSet<T> {
    var rows: map<int, T>
    var staged: seq<Change<T>>
    var nextId: int

    /** Every key in use, committed or staged for insertion, is below `nextId`. */
    ghost predicate Valid()
      reads this
    {
      && (forall id :: id in rows ==> id < nextId)
      && (forall i :: 0 <= i < |staged| && staged[i].Insert? ==> staged[i].id < nextId)
    }

    /** A table holding `seed`, whose generated keys start at `firstId`. */
    constructor (seed: map<int, T>, firstId: int)
      requires forall id :: id in seed ==> id < firstId
      ensures Valid()
      ensures rows == seed && staged == [] && nextId == firstId
    {
      rows, staged, nextId := seed, [], firstId;
    }

    /**
     * Stages the insertion of `entity` and returns the Id the store
     * generates for it, a key no committed or staged row uses.
     */
    method Add(entity: T) returns (id: int)
      requires Valid()
      modifies this
      ensures Valid()
      ensures id == old(nextId) && id !in rows && id !in InsertedIds(old(staged))
      ensures rows == old(rows) && nextId == id + 1
      ensures staged == old(staged) + [Insert(id, entity)]
    {
      id := nextId;
      staged := staged + [Insert(id, entity)];
      nextId := id + 1;
    }

    /** Stages the replacement of row `id` by `entity`. */
    method Update(id: int, entity: T)
      requires Valid()
      modifies this
      ensures Valid()
      ensures rows == old(rows) && nextId == old(nextId)
      ensures staged == old(staged) + [Modify(id, entity)]
    {
      staged := staged + [Modify(id, entity)];
    }

    /** Stages the removal of row `id`. */
    method Remove(id: int)
      requires Valid()
      modifies this
      ensures Valid()
      ensures rows == old(rows) && nextId == old(nextId)
      ensures staged == old(staged) + [Change.Remove(id)]
    {
      staged := staged + [Change.Remove(id)];
    }
  }

  /**
   * What a commit did to one table `s` whose staged changes at commit time
   * were `pending`: on success the rows are those changes applied and
   * nothing is staged; on failure the rows are as before and the changes
   * stay staged. The key generator is untouched either way.
   */
  twostate predicate Flushed<T>(s: DbSet<T>, ok: bool, pending: seq<Change<T>>)
    reads s
  {
    && s.nextId == old(s.nextId)
    && (ok ==> Apply(old(s.rows), pending).Some? && s.rows == Apply(old(s.rows), pending).value && s.staged == [])
    && (!ok ==> s.rows == old(s.rows) && s.staged == pending)
  }

  /** Committing what a valid table has staged keeps it valid. */
  lemma CommitKeepsValid<T>(rows: map<int, T>, staged: seq<Change<T>>, nextId: int)
    requires forall id :: id in rows ==> id < nextId
    requires forall i :: 0 <= i < |staged| && staged[i].Insert? ==> staged[i].id < nextId
    requires Apply(rows, staged).Some?
    ensures forall id :: id in Apply(rows, staged).value ==> id < nextId
  {
  }
}
