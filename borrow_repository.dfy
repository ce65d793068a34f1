/** The borrow-record table: lookup by identifier, the records of one user
    (in store order, or newest borrow first), insertion and replacement. */
module LoanStore {
  import opened Common
  import opened Entities

  /** Every identifier of `ids` names a stored record. */
  predicate Recorded(ids: seq<Guid>, table: map<Guid, BorrowRecord>) {
    forall k :: k in ids ==> k in table
  }

  /** `Where(b => b.UserId == userId)` */
  function WhereUser(ids: seq<Guid>, table: map<Guid, BorrowRecord>, userId: Guid): (r: seq<Guid>)
    reads table.Values
    requires Recorded(ids, table)
    ensures IsSubsequence(r, ids)
    ensures forall k :: k in r <==> k in ids && table[k].UserId == userId
  {
    if ids == [] then []
    else
      var rest := WhereUser(ids[1..], table, userId);
      if table[ids[0]].UserId == userId then
        assert ([ids[0]] + rest)[1..] == rest;
        [ids[0]] + rest
      else
        rest
  }

  /** Record `a` may precede record `b` when ordering newest borrow first. */
  predicate BorrowedNoEarlier(table: map<Guid, BorrowRecord>, a: Guid, b: Guid)
    reads table.Values
    requires a in table && b in table
  {
    table[a].BorrowDate >= table[b].BorrowDate
  }

  /** Newest borrow first: no record is followed by one borrowed later. */
  predicate SortedByBorrowDateDesc(ids: seq<Guid>, table: map<Guid, BorrowRecord>)
    reads table.Values
    requires Recorded(ids, table)
  {
    forall i, j :: 0 <= i < j < |ids| ==> BorrowedNoEarlier(table, ids[i], ids[j])
  }

  /** Places `x` into identifiers already ordered newest borrow first. */
  function InsertByBorrowDate(x: Guid, s: seq<Guid>, table: map<Guid, BorrowRecord>): (r: seq<Guid>)
    reads table.Values
    requires x in table && Recorded(s, table)
    ensures multiset(r) == multiset(s) + multiset{x}
    ensures Recorded(r, table)
  {
    if s == [] then [x]
    else if BorrowedNoEarlier(table, x, s[0]) then [x] + s
    else
      assert s == [s[0]] + s[1..];
      [s[0]] + InsertByBorrowDate(x, s[1..], table)
  }

  lemma {:induction false} InsertByBorrowDateSorted(x: Guid, s: seq<Guid>, table: map<Guid, BorrowRecord>)
    requires x in table && Recorded(s, table) && SortedByBorrowDateDesc(s, table)
    ensures SortedByBorrowDateDesc(InsertByBorrowDate(x, s, table), table)
  {
    if s == [] {
    } else if BorrowedNoEarlier(table, x, s[0]) {
      forall j | 0 < j < |s| ensures BorrowedNoEarlier(table, x, s[j]) {
        assert BorrowedNoEarlier(table, s[0], s[j]);
      }
    } else {
      InsertByBorrowDateSorted(x, s[1..], table);
      var rest := InsertByBorrowDate(x, s[1..], table);
      assert s == [s[0]] + s[1..];
      forall k | 0 <= k < |rest| ensures BorrowedNoEarlier(table, s[0], rest[k]) {
        assert rest[k] in multiset(rest);
        if rest[k] != x {
          assert rest[k] in multiset(s[1..]);
          var j :| 0 <= j < |s[1..]| && s[1..][j] == rest[k];
          assert s[j + 1] == rest[k];
        }
      }
    }
  }

  /** `OrderByDescending(br => br.BorrowDate)`: the same identifiers, newest
      borrow first. */
  function SortByBorrowDateDesc(ids: seq<Guid>, table: map<Guid, BorrowRecord>): (r: seq<Guid>)
    reads table.Values
    requires Recorded(ids, table)
    ensures multiset(r) == multiset(ids)
    ensures Recorded(r, table)
    ensures SortedByBorrowDateDesc(r, table)
  {
    if ids == [] then []
    else
      assert ids == [ids[0]] + ids[1..];
      var sorted := SortByBorrowDateDesc(ids[1..], table);
      InsertByBorrowDateSorted(ids[0], sorted, table);
      InsertByBorrowDate(ids[0], sorted, table)
  }

  /** The records of `table` in the order given by `ids`. */
  function RecordsOf(ids: seq<Guid>, table: map<Guid, BorrowRecord>): (r: seq<BorrowRecord>)
    requires Recorded(ids, table)
    ensures |r| == |ids| && forall i :: 0 <= i < |ids| ==> r[i] == table[ids[i]]
  {
    if ids == [] then [] else [table[ids[0]]] + RecordsOf(ids[1..], table)
  }

  /** What the lending ledger needs of one record: its book, its borrower
      and its status. */
  datatype LoanState = LoanState(bookId: Guid, userId: Guid, status: BorrowStatus)

  /** The ledger's view of the stored records. */
  function LoanStates(table: map<Guid, BorrowRecord>): map<Guid, LoanState>
    reads table.Values
  {
    map id | id in table :: LoanState(table[id].BookId, table[id].UserId, table[id].Status)
  }

  /** The loans not yet returned (Borrowed or Overdue) of one book. */
  function ActiveLoans(states: map<Guid, LoanState>, bookId: Guid): set<Guid>
  {
    set id | id in states && states[id].bookId == bookId && states[id].status != Returned
  }

  /** The `BorrowRecords` table: records by identifier, plus the order in
      which the store enumerates them (the order they were added). */
  class BorrowRepository {
    var table: map<Guid, BorrowRecord>
    var order: seq<Guid>

    ghost predicate Valid()
      reads this
    {
      && (forall id :: id in table ==> table[id].Id == id)
      && NoDup(order)
      && (forall id :: id in order <==> id in table)
    }

    constructor ()
      ensures Valid() && table == map[] && order == []
    {
      table := map[];
      order := [];
    }

    /** The record stored under `id`, as a frame: empty when there is none. */
    function Entry(id: Guid): set<BorrowRecord>
      reads this
    {
      if id in table then {table[id]} else {}
    }

    /** `GetByIdAsync`: the record with that identifier, or null. */
    function GetByIdAsync(id: Guid): (r: BorrowRecord?)
      reads this
      requires Valid()
      ensures r == null <==> id !in table
      ensures r != null ==> r.Id == id && r in table.Values
    {
      if id in table then table[id] else null
    }

    /** The identifiers of one user's records, in store order. */
    function UserIds(userId: Guid): (r: seq<Guid>)
      reads this, table.Values
      requires Valid()
      ensures Recorded(r, table) && NoDup(r)
      ensures forall k :: k in r <==> k in table && table[k].UserId == userId
    {
      var r := WhereUser(order, table, userId);
      SubsequenceNoDup(r, order);
      r
    }

    /** `GetByUserIdAsync`: exactly the records of `userId`, each once, in
        store order. */
    function GetByUserIdAsync(userId: Guid): (r: seq<BorrowRecord>)
      reads this, table.Values
      requires Valid()
      ensures NoDup(r)
      ensures forall i :: 0 <= i < |r| ==> r[i] in table.Values && r[i].UserId == userId
      ensures forall id :: id in table && table[id].UserId == userId ==> table[id] in r
    {
      var ids := UserIds(userId);
      var r := RecordsOf(ids, table);
      RecordsOfFacts(ids, r);
      r
    }

    /** `GetByUserId`: exactly the records of `userId`, each once, newest
        borrow first. */
    function GetByUserId(userId: Guid): (r: seq<BorrowRecord>)
      reads this, table.Values
      requires Valid()
      ensures NoDup(r)
      ensures forall i :: 0 <= i < |r| ==> r[i] in table.Values && r[i].UserId == userId
      ensures forall id :: id in table && table[id].UserId == userId ==> table[id] in r
      ensures forall i, j :: 0 <= i < j < |r| ==> r[i].BorrowDate >= r[j].BorrowDate
    {
      var ids := UserIds(userId);
      var sorted := SortByBorrowDateDesc(ids, table);
      MultisetNoDup(ids, sorted);
      assert forall k :: k in sorted <==> k in ids by {
        forall k ensures k in sorted <==> k in ids {
          assert k in sorted <==> k in multiset(sorted);
        }
      }
      var r := RecordsOf(sorted, table);
      RecordsOfFacts(sorted, r);
      r
    }

    /** The facts of GetByUserId's contract about the records it reads:
        each is stored, each listed id's record appears, none twice. */
    lemma RecordsOfFacts(ids: seq<Guid>, r: seq<BorrowRecord>)
      requires Valid() && Recorded(ids, table) && NoDup(ids) && r == RecordsOf(ids, table)
      ensures NoDup(r)
      ensures forall i :: 0 <= i < |r| ==> r[i] in table.Values
      ensures forall id :: id in ids ==> table[id] in r
    {
      forall i, j | 0 <= i < j < |r| ensures r[i] != r[j] {
        assert r[i].Id == ids[i] && r[j].Id == ids[j];
      }
      forall id | id in ids ensures table[id] in r {
        var i :| 0 <= i < |ids| && ids[i] == id;
        assert r[i] == table[id];
      }
    }

    /** The two user queries return the same records; only the ordered one
        promises an order. */
    lemma SameRecords(userId: Guid)
      requires Valid()
      ensures multiset(GetByUserId(userId)) == multiset(GetByUserIdAsync(userId))
    {
      var byDate, stored := GetByUserId(userId), GetByUserIdAsync(userId);
      forall r ensures r in byDate <==> r in stored {
        if r in byDate || r in stored {
          assert r in table.Values;
          var id :| id in table && table[id] == r;
        }
      }
      NoDupSameElements(byDate, stored);
    }

    /** `AddAsync`: the record becomes retrievable and is enumerated last. */
    method AddAsync(record: BorrowRecord)
      requires Valid()
      requires record.Id !in table
      modifies this
      ensures Valid()
      ensures table == old(table)[record.Id := record]
      ensures order == old(order) + [record.Id]
      ensures GetByIdAsync(record.Id) == record
      ensures LoanStates(table) == old(LoanStates(table))[record.Id := LoanState(record.BookId, record.UserId, record.Status)]
    {
      ghost var states := LoanStates(table);
      table := table[record.Id := record];
      order := order + [record.Id];
      forall k | k in old(table) ensures LoanStates(table)[k] == states[k] {
        assert old(table)[k].Id == k;
      }
    }

    /** `UpdateAsync`: the record with the same identifier is replaced; every
        other record and the enumeration order stay as they were. */
    method UpdateAsync(record: BorrowRecord)
      requires Valid()
      requires record.Id in table
      modifies this
      ensures Valid()
      ensures table == old(table)[record.Id := record] && order == old(order)
      ensures GetByIdAsync(record.Id) == record
      ensures forall id :: id != record.Id ==> GetByIdAsync(id) == old(GetByIdAsync(id))
    {
      table := table[record.Id := record];
    }
  }
}
