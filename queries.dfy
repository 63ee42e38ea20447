/**
 * The two read-only reports over the table: the totals ranking (users with a
 * positive total, largest first) and the list of users currently on shift.
 * The table is given as its entry order `ids` and its contents `data`.
 */
module Queries {
  import opened Shifts

  datatype TotalLine = TotalLine(id: UserId, hours: real)
  datatype ActiveLine = ActiveLine(id: UserId, since: Timestamp)

  /** `ids` lists every key of `data` exactly once: the table's enumeration order. */
  ghost predicate Indexed(ids: seq<UserId>, data: map<UserId, Record>)
  {
    && (forall i, j :: 0 <= i < j < |ids| ==> ids[i] != ids[j])
    && (forall id :: id in data <==> id in ids)
  }

  ghost function TotalIds(r: seq<TotalLine>): set<UserId>
  {
    set k | 0 <= k < |r| :: r[k].id
  }

  ghost function ActiveIds(r: seq<ActiveLine>): set<UserId>
  {
    set k | 0 <= k < |r| :: r[k].id
  }

  ghost predicate TotalIdsDistinct(r: seq<TotalLine>)
  {
    forall i, j :: 0 <= i < j < |r| ==> r[i].id != r[j].id
  }

  ghost predicate ActiveIdsDistinct(r: seq<ActiveLine>)
  {
    forall i, j :: 0 <= i < j < |r| ==> r[i].id != r[j].id
  }

  /** Non-increasing by hours. */
  ghost predicate SortedDesc(r: seq<TotalLine>)
  {
    forall i, j :: 0 <= i < j < |r| ==> r[i].hours >= r[j].hours
  }

  ghost predicate Distinct(ids: seq<UserId>)
  {
    forall i, j :: 0 <= i < j < |ids| ==> ids[i] != ids[j]
  }

  /** Prepending one line adds its id to the id set, and keeps ids distinct exactly when it is new. */
  lemma TotalsCons(x: TotalLine, l: seq<TotalLine>)
    ensures TotalIds([x] + l) == {x.id} + TotalIds(l)
    ensures TotalIdsDistinct([x] + l) <==> TotalIdsDistinct(l) && x.id !in TotalIds(l)
  {
    var r := [x] + l;
    forall k | 1 <= k < |r| ensures r[k] == l[k - 1] { }
    forall id | id in TotalIds(l) ensures id in TotalIds(r) {
      var k :| 0 <= k < |l| && l[k].id == id;
      assert r[k + 1].id == id;
    }
    assert r[0].id == x.id;
    if TotalIdsDistinct(r) {
      forall i, j | 0 <= i < j < |l| ensures l[i].id != l[j].id {
        assert l[i] == r[i + 1] && l[j] == r[j + 1];
      }
      forall k | 0 <= k < |l| ensures l[k].id != x.id {
        assert l[k] == r[k + 1];
      }
    }
    if TotalIdsDistinct(l) && x.id !in TotalIds(l) {
      forall i, j | 0 <= i < j < |r| ensures r[i].id != r[j].id {
        assert r[j] == l[j - 1] && l[j - 1].id in TotalIds(l);
      }
    }
  }

  lemma ActiveCons(x: ActiveLine, l: seq<ActiveLine>)
    ensures ActiveIds([x] + l) == {x.id} + ActiveIds(l)
    ensures ActiveIdsDistinct([x] + l) <==> ActiveIdsDistinct(l) && x.id !in ActiveIds(l)
  {
    var r := [x] + l;
    forall k | 1 <= k < |r| ensures r[k] == l[k - 1] { }
    forall id | id in ActiveIds(l) ensures id in ActiveIds(r) {
      var k :| 0 <= k < |l| && l[k].id == id;
      assert r[k + 1].id == id;
    }
    assert r[0].id == x.id;
    if ActiveIdsDistinct(r) {
      forall i, j | 0 <= i < j < |l| ensures l[i].id != l[j].id {
        assert l[i] == r[i + 1] && l[j] == r[j + 1];
      }
      forall k | 0 <= k < |l| ensures l[k].id != x.id {
        assert l[k] == r[k + 1];
      }
    }
    if ActiveIdsDistinct(l) && x.id !in ActiveIds(l) {
      forall i, j | 0 <= i < j < |r| ensures r[i].id != r[j].id {
        assert r[j] == l[j - 1] && l[j - 1].id in ActiveIds(l);
      }
    }
  }

  /** Membership and distinctness of a non-empty id list split into its head and its tail. */
  lemma IdsSplit(ids: seq<UserId>)
    requires ids != []
    ensures forall id :: id in ids <==> id == ids[0] || id in ids[1..]
    ensures Distinct(ids) ==> Distinct(ids[1..]) && ids[0] !in ids[1..]
  {
  }

  /** The entries with a positive total, in table order. */
  function PositiveTotals(ids: seq<UserId>, data: map<UserId, Record>): (r: seq<TotalLine>)
    requires forall id :: id in ids ==> id in data
    ensures forall k :: 0 <= k < |r| ==> r[k].id in ids && r[k].hours == data[r[k].id].total && r[k].hours > 0.0
    ensures TotalIds(r) == set id | id in ids && data[id].total > 0.0
    ensures Distinct(ids) ==> TotalIdsDistinct(r)
  {
    if ids == [] then []
    else
      IdsSplit(ids);
      var rest := PositiveTotals(ids[1..], data);
      if data[ids[0]].total > 0.0 then
        TotalsCons(TotalLine(ids[0], data[ids[0]].total), rest);
        [TotalLine(ids[0], data[ids[0]].total)] + rest
      else
        rest
  }

  lemma SortedCons(x: TotalLine, l: seq<TotalLine>)
    requires SortedDesc(l)
    requires l == [] || x.hours >= l[0].hours
    ensures SortedDesc([x] + l)
  {
  }

  lemma SortedTail(l: seq<TotalLine>)
    requires SortedDesc(l) && l != []
    ensures SortedDesc(l[1..])
    ensures forall k :: 0 <= k < |l[1..]| ==> l[1..][k].hours <= l[0].hours
  {
  }

  /**
   * Inserts `x` into a list sorted by non-increasing hours, before the first
   * line whose hours do not exceed its own.
   */
  function Insert(x: TotalLine, l: seq<TotalLine>): (r: seq<TotalLine>)
    requires SortedDesc(l)
    ensures |r| == |l| + 1
    ensures r[0] == x || (l != [] && r[0] == l[0])
    ensures SortedDesc(r)
    ensures multiset(r) == multiset(l) + multiset{x}
  {
    if l == [] || x.hours >= l[0].hours then
      SortedCons(x, l);
      [x] + l
    else
      SortedTail(l);
      var rest := Insert(x, l[1..]);
      SortedCons(l[0], rest);
      assert l == [l[0]] + l[1..];
      [l[0]] + rest
  }

  /** Inserting adds exactly the new line's id, and keeps ids distinct when that id is new. */
  lemma {:induction false} InsertIds(x: TotalLine, l: seq<TotalLine>)
    requires SortedDesc(l)
    ensures TotalIds(Insert(x, l)) == TotalIds(l) + {x.id}
    ensures TotalIdsDistinct(l) && x.id !in TotalIds(l) ==> TotalIdsDistinct(Insert(x, l))
  {
    if l == [] || x.hours >= l[0].hours {
      TotalsCons(x, l);
    } else {
      assert l == [l[0]] + l[1..];
      TotalsCons(l[0], l[1..]);
      SortedTail(l);
      InsertIds(x, l[1..]);
      TotalsCons(l[0], Insert(x, l[1..]));
    }
  }

  /** Insertion sort by non-increasing hours. */
  function SortByHours(s: seq<TotalLine>): (r: seq<TotalLine>)
    ensures SortedDesc(r)
    ensures multiset(r) == multiset(s)
  {
    if s == [] then []
    else
      assert s == [s[0]] + s[1..];
      Insert(s[0], SortByHours(s[1..]))
  }

  /** Sorting keeps the set of ids, and keeps them distinct. */
  lemma {:induction false} SortIds(s: seq<TotalLine>)
    ensures TotalIds(SortByHours(s)) == TotalIds(s)
    ensures TotalIdsDistinct(s) ==> TotalIdsDistinct(SortByHours(s))
  {
    if s != [] {
      assert s == [s[0]] + s[1..];
      TotalsCons(s[0], s[1..]);
      SortIds(s[1..]);
      InsertIds(s[0], SortByHours(s[1..]));
    }
  }

  /**
   * The totals report: exactly the users whose total is positive, each once
   * and with their total, ordered by non-increasing total; a permutation of
   * the positive entries in table order.
   */
  function Totals(ids: seq<UserId>, data: map<UserId, Record>): (r: seq<TotalLine>)
    requires Indexed(ids, data)
    ensures SortedDesc(r)
    ensures forall k :: 0 <= k < |r| ==> r[k].id in data && r[k].hours == data[r[k].id].total
    ensures TotalIds(r) == set id | id in data && data[id].total > 0.0
    ensures TotalIdsDistinct(r)
    ensures multiset(r) == multiset(PositiveTotals(ids, data))
  {
    var positive := PositiveTotals(ids, data);
    SortIds(positive);
    SameElements(positive, SortByHours(positive));
    PositiveOverTable(ids, data);
    SortByHours(positive)
  }

  /** Lines of a permutation are lines of the original. */
  lemma SameElements(s: seq<TotalLine>, r: seq<TotalLine>)
    requires multiset(r) == multiset(s)
    ensures forall k :: 0 <= k < |r| ==> r[k] in s
  {
    forall k | 0 <= k < |r| ensures r[k] in s {
      assert r[k] in multiset(r);
    }
  }

  lemma PositiveOverTable(ids: seq<UserId>, data: map<UserId, Record>)
    requires Indexed(ids, data)
    ensures (set id | id in ids && data[id].total > 0.0) == (set id | id in data && data[id].total > 0.0)
  {
  }

  /** The entries whose user is on shift, with their clock-in time, in table order. */
  function Active(ids: seq<UserId>, data: map<UserId, Record>): (r: seq<ActiveLine>)
    requires forall id :: id in ids ==> id in data
    ensures forall k :: 0 <= k < |r| ==> r[k].id in ids && data[r[k].id].currentStart == Some(r[k].since)
    ensures ActiveIds(r) == set id | id in ids && OnShift(data[id])
    ensures Distinct(ids) ==> ActiveIdsDistinct(r)
  {
    if ids == [] then []
    else
      IdsSplit(ids);
      var rest := Active(ids[1..], data);
      match data[ids[0]].currentStart
      case None => rest
      case Some(since) =>
        ActiveCons(ActiveLine(ids[0], since), rest);
        [ActiveLine(ids[0], since)] + rest
  }

  /** Over the whole table, the active report lists exactly the users on shift, each once. */
  lemma ActiveExact(ids: seq<UserId>, data: map<UserId, Record>)
    requires Indexed(ids, data)
    ensures ActiveIds(Active(ids, data)) == set id | id in data && OnShift(data[id])
    ensures ActiveIdsDistinct(Active(ids, data))
  {
  }
}
