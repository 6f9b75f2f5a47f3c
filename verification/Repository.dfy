/** The `Users` table and the repository over it. The table is a map from `Id` to row;
    the repository's reads are functions of that map, its writes are methods that
    replace it, and the unique index on `Email` is part of the object invariant. */
module Repository {
  import opened Wrappers
  import opened Domain
  import opened Results
  import Int32

  /** What `SaveChanges` does with a write: it commits and the repository returns a
      value, or it throws. */
  datatype DbResult<T> = Committed(value: T) | Threw(error: Exception)

  /** Some row other than `u`'s own already holds `u`'s non-null email. The unique
      index on a nullable column ignores nulls, so a null email never clashes. */
  predicate EmailClash(rows: map<Guid, User>, u: User) {
    u.Email.Some? && exists id :: id in rows && id != u.Id && rows[id].Email == u.Email
  }

  lemma LeastExists(s: set<Guid>)
    requires s != {}
    ensures exists m :: m in s && forall x :: x in s ==> m <= x
  {
    var m := LeastWitness(s);
  }

  lemma {:induction false} LeastWitness(s: set<Guid>) returns (m: Guid)
    requires s != {}
    ensures m in s && forall x :: x in s ==> m <= x
    decreases |s|
  {
    var y :| y in s;
    if s == {y} {
      m := y;
    } else {
      var rest := s - {y};
      var r := LeastWitness(rest);
      m := if y < r then y else r;
      forall x | x in s
        ensures m <= x
      {
        if x != y {
          assert x in rest;
        }
      }
    }
  }

  /** The smallest id of a non-empty set. */
  function Least(s: set<Guid>): (m: Guid)
    requires s != {}
    ensures m in s && forall x :: x in s ==> m <= x
  {
    LeastExists(s);
    var m :| m in s && forall x :: x in s ==> m <= x;
    m
  }

  /** Where a window that is asked to start at `offset` starts: a negative offset
      counts as 0. */
  function Start(offset: int): nat {
    if offset < 0 then 0 else offset
  }

  /** LINQ's `Skip(offset).Take(size)`: the window of `s` that starts at
      `Start(offset)` (`Skip` with a negative count skips nothing, `Take` with a
      count of zero or less takes nothing). It is empty exactly when `size` is not
      positive or the window starts at or past the end; otherwise it is the slice of
      `s` at that start, at most `size` long, and shorter only when it reaches the
      end of `s`. */
  function Page<T>(s: seq<T>, offset: int, size: int): (page: seq<T>)
    ensures page == [] <==> size <= 0 || Start(offset) >= |s|
    ensures page != [] ==> Start(offset) + |page| <= |s| && |page| <= size
    ensures page != [] ==> page == s[Start(offset)..Start(offset) + |page|]
    ensures page != [] && |page| < size ==> Start(offset) + |page| == |s|
  {
    var start := Start(offset);
    if size <= 0 || start >= |s| then []
    else if size < |s| - start then s[start..start + size]
    else s[start..]
  }

  class UserRepository {
    /** The table, keyed by `Id`. */
    var users: map<Guid, User>

    /** Every row is stored under its own `Id`, and no two rows share a non-null
        `Email` (the unique index `IX_User_Email`). */
    ghost predicate Valid()
      reads this
    {
      && KeysMatch(users)
      && (forall a, b :: a in users && b in users && users[a].Email.Some? && users[a].Email == users[b].Email ==> a == b)
    }

    /** A repository over an empty table. */
    constructor()
      ensures Valid() && users == map[]
    {
      users := map[];
    }

    /** `FindAsync(id)`: the row stored under `id`, or null. */
    function GetById(id: Guid): (r: Option<User>)
      reads this
      requires Valid()
      ensures r.Some? <==> id in users
      ensures r.Some? ==> r.value == users[id] && r.value.Id == id
    {
      if id in users then Some(users[id]) else None
    }

    /** The rows in ascending `Id` order. */
    function Rows(): (rows: seq<User>)
      reads this
      requires Valid()
      ensures ListsInOrder(rows, users)
    {
      OrderedRows(users)
    }

    /** `SingleOrDefault(user => user.Email == email)`: the row holding exactly this
        email, or null. The unique index makes the row, when there is one, the only one. */
    function GetByEmail(email: string): (r: Option<User>)
      reads this
      requires Valid()
      ensures r.Some? ==> r.value.Id in users && users[r.value.Id] == r.value && r.value.Email == Some(email)
      ensures r.Some? ==> forall id :: id in users && users[id].Email == Some(email) ==> id == r.value.Id
      ensures r.None? ==> forall id :: id in users ==> users[id].Email != Some(email)
    {
      if exists id | id in users :: users[id].Email == Some(email) then
        var id :| id in users && users[id].Email == Some(email);
        Some(users[id])
      else
        None
    }

    /** `AnyAsync(user => user.Email == email)`. It agrees with `GetByEmail`. */
    function ExistsByEmail(email: string): (b: bool)
      reads this
      requires Valid()
      ensures b <==> GetByEmail(email).Some?
    {
      exists id | id in users :: users[id].Email == Some(email)
    }

    /** `OrderBy(u => u.Id).Skip(pageNumber * pageSize).Take(pageSize)`, with the
        product taken over the integers (see `GetAllAsWritten` for `int` arithmetic):
        the page starts at row `pageNumber * pageSize` of the ordered table and holds
        at most `pageSize` consecutive rows. */
    function GetAll(pageNumber: int, pageSize: int): (page: seq<User>)
      reads this
      requires Valid()
      ensures var offset := Start(pageNumber * pageSize);
        && (page == [] <==> pageSize <= 0 || offset >= |users|)
        && (page != [] ==> offset + |page| <= |users| && |page| <= pageSize)
        && (page != [] ==> page == Rows()[offset..offset + |page|])
        && (page != [] && |page| < pageSize ==> offset + |page| == |users|)
      ensures IdsAscend(page) && AllStored(page, users)
    {
      var rows := Rows();
      var page := Page(rows, pageNumber * pageSize, pageSize);
      WindowOfRows(rows, users, Start(pageNumber * pageSize), page);
      page
    }

    /** The same query with C#'s wrapping `int` multiplication at
        `pageNumber * pageSize`. Without overflow it is `GetAll`. */
    function GetAllAsWritten(pageNumber: int, pageSize: int): (page: seq<User>)
      reads this
      requires Valid()
      requires Int32.IsInt32(pageNumber) && Int32.IsInt32(pageSize)
      ensures Int32.IsInt32(pageNumber * pageSize) ==> page == GetAll(pageNumber, pageSize)
    {
      Page(Rows(), Int32.Wrap(pageNumber * pageSize), pageSize)
    }

    /** Paging covers the table: row `i` of the ordered table is entry `i % size`
        of page `i / size`. */
    lemma EveryRowOnItsPage(i: int, size: int)
      requires Valid()
      requires 0 <= i < |users| && 0 < size
      ensures i % size < |GetAll(i / size, size)|
      ensures GetAll(i / size, size)[i % size] == Rows()[i]
    {
      var p, k := i / size, i % size;
      assert p * size + k == i;
      assert p * size >= 0;
      assert Start(p * size) == p * size;
    }

    /** Every id on page `p` is smaller than every id on page `p + 1`, so
        consecutive pages neither overlap nor go back. */
    lemma ConsecutivePagesOrdered(p: int, size: int, a: int, b: int)
      requires Valid()
      requires 0 <= p && 0 < size
      requires 0 <= a < |GetAll(p, size)| && 0 <= b < |GetAll(p + 1, size)|
      ensures GetAll(p, size)[a].Id < GetAll(p + 1, size)[b].Id
    {
      NextPageOffset(p, size);
      var start, rows := p * size, Rows();
      assert GetAll(p, size)[a] == rows[start + a];
      assert GetAll(p + 1, size)[b] == rows[start + size + b];
      assert IdAt(rows, start + a) < IdAt(rows, start + size + b);
    }

    /** A page that starts at or beyond the last row is empty. */
    lemma PastTheEndIsEmpty(p: int, size: int)
      requires Valid()
      requires p * size >= |users|
      ensures GetAll(p, size) == []
    {
      assert Start(p * size) >= |users|;
    }

    /** With `int` arithmetic, page 2^30 of size 4 starts at offset 2^32, which wraps to
        0: the query returns the first page instead of nothing. */
    lemma OffsetOverflowRestartsAtFirstPage()
      requires Valid()
      requires 0 < |users| <= 0x1_0000_0000
      ensures GetAllAsWritten(0x4000_0000, 4) == GetAll(0, 4) != []
      ensures GetAll(0x4000_0000, 4) == []
    {
      assert Int32.Wrap(0x4000_0000 * 4) == 0;
      PastTheEndIsEmpty(0x4000_0000, 4);
    }

    /** `AddAsync` + `SaveChanges`: inserts `user` and returns the same record. */
    method Add(user: User) returns (r: DbResult<User>)
      requires Valid()
      modifies this
      ensures Valid()
      ensures user.Id in old(users) ==> r == Threw(DuplicateKey) && users == old(users)
      ensures user.Id !in old(users) && EmailClash(old(users), user) ==> r == Threw(DuplicateEmail) && users == old(users)
      ensures user.Id !in old(users) && !EmailClash(old(users), user) ==>
                r == Committed(user) && users == old(users)[user.Id := user]
    {
      if user.Id in users {
        r := Threw(DuplicateKey);
      } else if EmailClash(users, user) {
        r := Threw(DuplicateEmail);
      } else {
        users := users[user.Id := user];
        r := Committed(user);
      }
    }

    /** `Update` + `SaveChanges`: overwrites the row with `user`'s `Id` by `user` and
        returns it. */
    method Update(user: User) returns (r: DbResult<User>)
      requires Valid()
      modifies this
      ensures Valid()
      ensures user.Id !in old(users) ==> r == Threw(RowMissing) && users == old(users)
      ensures user.Id in old(users) && EmailClash(old(users), user) ==> r == Threw(DuplicateEmail) && users == old(users)
      ensures user.Id in old(users) && !EmailClash(old(users), user) ==>
                r == Committed(user) && users == old(users)[user.Id := user]
    {
      if user.Id !in users {
        r := Threw(RowMissing);
      } else if EmailClash(users, user) {
        r := Threw(DuplicateEmail);
      } else {
        users := users[user.Id := user];
        r := Committed(user);
      }
    }

    /** `SetUserActiveStateAsync`: sets the record's `IsActive`, saves it, returns true. */
    method SetUserActiveState(user: User, isActive: bool) returns (r: DbResult<bool>)
      requires Valid()
      modifies this
      ensures Valid()
      ensures var written := user.(IsActive := isActive);
        && (user.Id !in old(users) ==> r == Threw(RowMissing) && users == old(users))
        && (user.Id in old(users) && EmailClash(old(users), written) ==> r == Threw(DuplicateEmail) && users == old(users))
        && (user.Id in old(users) && !EmailClash(old(users), written) ==>
              r == Committed(true) && users == old(users)[user.Id := written])
      ensures user.Id in old(users) && user.Email == old(users)[user.Id].Email ==> r == Committed(true)
    {
      var saved := Update(user.(IsActive := isActive));
      if saved.Committed? {
        r := Committed(true);
      } else {
        r := Threw(saved.error);
      }
    }

    /** `Remove` + `SaveChanges`: deletes the row with `user`'s `Id`, returns true. */
    method Delete(user: User) returns (r: DbResult<bool>)
      requires Valid()
      modifies this
      ensures Valid()
      ensures user.Id !in old(users) ==> r == Threw(RowMissing) && users == old(users)
      ensures user.Id in old(users) ==> r == Committed(true) && users == old(users) - {user.Id}
    {
      if user.Id !in users {
        r := Threw(RowMissing);
      } else {
        users := users - {user.Id};
        r := Committed(true);
      }
    }
  }

  /** Page `p + 1` starts `size` rows after page `p`, at a non-negative offset. */
  lemma NextPageOffset(p: int, size: int)
    requires 0 <= p && 0 < size
    ensures 0 <= p * size && (p + 1) * size == p * size + size
  {
  }

  /** Every row is stored under its own id. */
  predicate KeysMatch(m: map<Guid, User>) {
    forall id :: id in m ==> m[id].Id == id
  }

  /** `rows` lists the table `m` in ascending id order: it holds every row of `m`,
      only rows of `m`, each once, and the ids ascend. */
  predicate ListsInOrder(rows: seq<User>, m: map<Guid, User>) {
    && |rows| == |m|
    && AllStored(rows, m) && IdsAscend(rows)
    && forall id :: id in m ==> m[id] in rows
  }

  /** The rows of a table stored under their own ids, in ascending id order:
      `OrderBy(u => u.Id)`. There is exactly one such list. */
  function OrderedRows(m: map<Guid, User>): (rows: seq<User>)
    requires KeysMatch(m)
    ensures ListsInOrder(rows, m)
  {
    OrderingExists(m);
    OrderingUnique(m);
    var rows :| ListsInOrder(rows, m);
    rows
  }

  lemma OrderingExists(m: map<Guid, User>)
    requires KeysMatch(m)
    ensures exists rows :: ListsInOrder(rows, m)
  {
    var rows := Ordering(m);
  }

  /** Builds the ordered list: the row with the least id, then the rest in order. */
  lemma {:induction false} Ordering(m: map<Guid, User>) returns (rows: seq<User>)
    requires KeysMatch(m)
    ensures ListsInOrder(rows, m)
    decreases |m|
  {
    if m == map[] {
      rows := [];
    } else {
      var id := Least(m.Keys);
      var rest := Ordering(m - {id});
      assert |(m - {id}).Keys| == |m.Keys - {id}|;
      forall k | 0 <= k < |rest| ensures id < rest[k].Id && rest[k].Id in m && m[rest[k].Id] == rest[k] {
        assert rest[k].Id in m - {id};
      }
      rows := [m[id]] + rest;
      forall i, j | 0 <= i < j < |rows| ensures IdAt(rows, i) < IdAt(rows, j) {
        assert rows[j] == rest[j - 1];
        if 0 < i {
          assert rows[i] == rest[i - 1] && IdAt(rest, i - 1) < IdAt(rest, j - 1);
        }
      }
      forall x | x in m ensures m[x] in rows {
        if x != id {
          assert (m - {id})[x] in rest;
        }
      }
    }
  }

  lemma OrderingUnique(m: map<Guid, User>)
    requires KeysMatch(m)
    ensures forall r1, r2 :: ListsInOrder(r1, m) && ListsInOrder(r2, m) ==> r1 == r2
  {
    forall r1, r2 | ListsInOrder(r1, m) && ListsInOrder(r2, m) ensures r1 == r2 {
      SameOrdering(r1, r2, m);
    }
  }

  /** Two lists of the same table in ascending id order are the same list: both
      start with the row of least id, and what follows lists the rest. */
  lemma {:induction false} SameOrdering(r1: seq<User>, r2: seq<User>, m: map<Guid, User>)
    requires KeysMatch(m) && ListsInOrder(r1, m) && ListsInOrder(r2, m)
    ensures r1 == r2
    decreases |r1|
  {
    if r1 != [] {
      SameFirst(r1, r2, m);
      Tail(r1, m);
      Tail(r2, m);
      SameOrdering(r1[1..], r2[1..], m - {r1[0].Id});
      assert r1 == [r1[0]] + r1[1..];
      assert r2 == [r2[0]] + r2[1..];
    }
  }

  /** Two ordered lists of the same table start with the same row. */
  lemma SameFirst(r1: seq<User>, r2: seq<User>, m: map<Guid, User>)
    requires KeysMatch(m) && ListsInOrder(r1, m) && ListsInOrder(r2, m) && r1 != []
    ensures r2 != [] && r1[0] == r2[0]
  {
    var a, b := r1[0], r2[0];
    assert m[a.Id] in r2;
    var j :| 0 <= j < |r2| && r2[j] == a;
    FirstIsLeast(r2, j);
    assert m[b.Id] in r1;
    var i :| 0 <= i < |r1| && r1[i] == b;
    FirstIsLeast(r1, i);
  }

  lemma FirstIsLeast(rows: seq<User>, k: int)
    requires IdsAscend(rows) && 0 <= k < |rows|
    ensures IdAt(rows, 0) <= IdAt(rows, k)
  {
    if k != 0 {
      assert IdAt(rows, 0) < IdAt(rows, k);
    }
  }

  /** Dropping the first row of an ordered list leaves the rest of the table in order. */
  lemma Tail(rows: seq<User>, m: map<Guid, User>)
    requires KeysMatch(m) && ListsInOrder(rows, m) && rows != []
    ensures KeysMatch(m - {rows[0].Id}) && ListsInOrder(rows[1..], m - {rows[0].Id})
  {
    var id := rows[0].Id;
    var rest, tail := m - {id}, rows[1..];
    assert |rest.Keys| == |m.Keys - {id}|;
    forall k | 0 <= k < |tail| ensures tail[k].Id in rest && rest[tail[k].Id] == tail[k] {
      assert tail[k] == rows[k + 1];
      assert IdAt(rows, 0) < IdAt(rows, k + 1);
    }
    forall i, j | 0 <= i < j < |tail| ensures IdAt(tail, i) < IdAt(tail, j) {
      assert tail[i] == rows[i + 1] && tail[j] == rows[j + 1];
      assert IdAt(rows, i + 1) < IdAt(rows, j + 1);
    }
    forall x | x in rest ensures rest[x] in tail {
      assert m[x] in rows;
      var j :| 0 <= j < |rows| && rows[j] == m[x];
      assert j != 0;
      assert tail[j - 1] == rest[x];
    }
  }

  /** The rows are in strictly ascending `Id` order. */
  predicate IdsAscend(rows: seq<User>) {
    forall i, j :: 0 <= i < j < |rows| ==> IdAt(rows, i) < IdAt(rows, j)
  }

  /** The id of entry `i`. */
  function IdAt(rows: seq<User>, i: int): Guid
    requires 0 <= i < |rows|
  {
    rows[i].Id
  }

  /** Every entry of `rows` is the row `m` stores under that entry's id. */
  predicate AllStored(rows: seq<User>, m: map<Guid, User>) {
    forall i :: 0 <= i < |rows| ==> rows[i].Id in m && m[rows[i].Id] == rows[i]
  }

  /** A run of consecutive entries of an ordered list of stored rows is itself
      ordered, and its entries are stored. */
  lemma WindowOfRows(rows: seq<User>, m: map<Guid, User>, start: int, page: seq<User>)
    requires AllStored(rows, m) && IdsAscend(rows)
    requires page != [] ==> 0 <= start && start + |page| <= |rows| && page == rows[start..start + |page|]
    ensures AllStored(page, m) && IdsAscend(page)
  {
    forall i, j | 0 <= i < j < |page| ensures IdAt(page, i) < IdAt(page, j) {
      assert page[i] == rows[start + i] && page[j] == rows[start + j];
      assert IdAt(rows, start + i) < IdAt(rows, start + j);
    }
    forall k | 0 <= k < |page| ensures page[k].Id in m && m[page[k].Id] == page[k] {
      assert page[k] == rows[start + k];
    }
  }
}
