/** The per-user library tenancy: the `libraries` table and the handlers that
    list, read, create, switch, update and delete a caller's libraries. Each
    handler runs as one sequential step on the table; the SQL statements it
    issues are the functions `DeactivateOwned`, `ActivateId`, `AssignColumns`
    and `DeleteId`, applied in the handler's order. */
module LibrariesRoutes {
  import opened Common
  import opened Text
  import opened Helper

  /** A row of the `libraries` table, under the camelCase names
      `formatLibrary` gives it. `createdAt` is the insertion counter. */
  datatype Library = Library(id: nat, userId: nat, name: string, imageUrl: Option<string>,
                             isActive: bool, createdAt: nat)

  const MaxLibraries: nat := 10

  // ------------------------------------------------------------ invariant

  /** No two rows share an id (the primary key). */
  predicate IdsUnique(rows: seq<Library>) {
    forall i, j :: 0 <= i < |rows| && 0 <= j < |rows| && rows[i].id == rows[j].id ==> i == j
  }

  /** A user never has two active libraries. */
  predicate AtMostOneActive(rows: seq<Library>) {
    forall i, j ::
      (0 <= i < |rows| && 0 <= j < |rows| && rows[i].userId == rows[j].userId
       && rows[i].isActive && rows[j].isActive) ==> i == j
  }

  /** The user has an active library. */
  predicate HasActive(rows: seq<Library>, userId: nat) {
    exists j :: 0 <= j < |rows| && rows[j].userId == userId && rows[j].isActive
  }

  /** A user who owns a library has an active one. */
  predicate OwnersHaveActive(rows: seq<Library>) {
    forall i {:trigger HasActive(rows, rows[i].userId)} :: 0 <= i < |rows| ==> HasActive(rows, rows[i].userId)
  }

  /** `AtMostOneActive` with row `t` left aside. */
  predicate AtMostOneActiveExcept(rows: seq<Library>, t: nat) {
    forall i, j ::
      (0 <= i < |rows| && 0 <= j < |rows| && i != t && j != t && rows[i].userId == rows[j].userId
       && rows[i].isActive && rows[j].isActive) ==> i == j
  }

  /** The user has an active row other than row `t`. */
  predicate HasActiveExcept(rows: seq<Library>, t: nat, userId: nat) {
    exists j :: 0 <= j < |rows| && j != t && rows[j].userId == userId && rows[j].isActive
  }

  /** `OwnersHaveActive` with row `t` left aside. */
  predicate OwnersHaveActiveExcept(rows: seq<Library>, t: nat) {
    forall i {:trigger HasActiveExcept(rows, t, rows[i].userId)} ::
      0 <= i < |rows| && i != t ==> HasActiveExcept(rows, t, rows[i].userId)
  }

  /** The state every handler keeps: unique ids, and exactly one active
      library for every user who owns any. */
  predicate TableInvariant(rows: seq<Library>) {
    IdsUnique(rows) && AtMostOneActive(rows) && OwnersHaveActive(rows)
  }

  // -------------------------------------------------------------- queries

  /** `SELECT * FROM libraries WHERE user_id = ?`, in table order. */
  function Owned(rows: seq<Library>, userId: nat): (r: seq<Library>)
    ensures |r| <= |rows|
    ensures forall x :: x in r <==> x in rows && x.userId == userId
  {
    if rows == [] then []
    else (if rows[0].userId == userId then [rows[0]] else []) + Owned(rows[1..], userId)
  }

  /** The query keeps each of the caller's rows as often as the table holds
      it, and no other row. */
  lemma {:induction false} OwnedCounts(rows: seq<Library>, userId: nat)
    ensures forall x :: multiset(Owned(rows, userId))[x] == if x.userId == userId then multiset(rows)[x] else 0
  {
    if rows != [] {
      OwnedCounts(rows[1..], userId);
      assert rows == [rows[0]] + rows[1..];
    }
  }

  /** The query keeps table order: the caller's rows of a concatenation are
      those of the first part, then those of the second. */
  lemma {:induction false} OwnedAppend(a: seq<Library>, b: seq<Library>, userId: nat)
    ensures Owned(a + b, userId) == Owned(a, userId) + Owned(b, userId)
  {
    if a == [] {
      assert a + b == b;
    } else {
      assert (a + b)[1..] == a[1..] + b;
      OwnedAppend(a[1..], b, userId);
    }
  }

  /** `a` may be listed before `b` under `ORDER BY is_active DESC, created_at DESC`. */
  predicate ListedBefore(a: Library, b: Library) {
    (a.isActive && !b.isActive) || (a.isActive == b.isActive && a.createdAt >= b.createdAt)
  }

  predicate SortedForListing(s: seq<Library>) {
    forall i, j :: 0 <= i < j < |s| ==> ListedBefore(s[i], s[j])
  }

  /** Puts `x` into a list, before the first element it may precede. */
  function Insert(x: Library, s: seq<Library>): seq<Library> {
    if s == [] || ListedBefore(x, s[0]) then [x] + s else [s[0]] + Insert(x, s[1..])
  }

  /** The rows in listing order: active first, then newest first. */
  function SortForListing(s: seq<Library>): seq<Library> {
    if s == [] then [] else Insert(s[0], SortForListing(s[1..]))
  }

  /** `getUserLibraries`: the caller's rows in listing order. */
  function UserLibraries(rows: seq<Library>, userId: nat): seq<Library> {
    SortForListing(Owned(rows, userId))
  }

  /** The head of a sorted list may precede everything after it. */
  lemma HeadListedFirst(s: seq<Library>)
    requires SortedForListing(s) && s != []
    ensures forall y :: y in multiset(s[1..]) ==> ListedBefore(s[0], y)
  {
    forall y | y in multiset(s[1..]) ensures ListedBefore(s[0], y) {
      var k :| 0 <= k < |s[1..]| && s[1..][k] == y;
      assert s[k + 1] == y;
    }
  }

  /** The rest of a sorted list is sorted. */
  lemma SortedTail(s: seq<Library>)
    requires SortedForListing(s) && s != []
    ensures SortedForListing(s[1..])
  {
    var tail := s[1..];
    forall i, j | 0 <= i < j < |tail| ensures ListedBefore(tail[i], tail[j]) {
      assert tail[i] == s[i + 1] && tail[j] == s[j + 1];
    }
  }

  /** An element that may precede every element of a sorted list may head it. */
  lemma ConsSorted(a: Library, t: seq<Library>)
    requires SortedForListing(t)
    requires forall k :: 0 <= k < |t| ==> ListedBefore(a, t[k])
    ensures SortedForListing([a] + t)
  {
    var r := [a] + t;
    forall i, j | 0 <= i < j < |r| ensures ListedBefore(r[i], r[j]) {
      assert r[j] == t[j - 1];
      if i > 0 {
        assert r[i] == t[i - 1];
      }
    }
  }

  /** Inserting into a sorted list keeps it sorted and adds exactly `x`. */
  lemma {:induction false} InsertKeepsOrder(x: Library, s: seq<Library>)
    requires SortedForListing(s)
    ensures SortedForListing(Insert(x, s))
    ensures multiset(Insert(x, s)) == multiset(s) + multiset{x}
  {
    if s == [] || ListedBefore(x, s[0]) {
      forall k | 0 <= k < |s| ensures ListedBefore(x, s[k]) {
        if k > 0 {
          assert ListedBefore(s[0], s[k]);
        }
      }
      ConsSorted(x, s);
    } else {
      var tail := s[1..];
      SortedTail(s);
      InsertKeepsOrder(x, tail);
      HeadListedFirst(s);
      var t := Insert(x, tail);
      forall k | 0 <= k < |t| ensures ListedBefore(s[0], t[k]) {
        assert t[k] in multiset(t);
      }
      ConsSorted(s[0], t);
      assert s == [s[0]] + tail;
    }
  }

  /** Sorting for the listing yields a sorted permutation of its input. */
  lemma {:induction false} SortForListingOrders(s: seq<Library>)
    ensures SortedForListing(SortForListing(s))
    ensures multiset(SortForListing(s)) == multiset(s)
  {
    if s != [] {
      SortForListingOrders(s[1..]);
      InsertKeepsOrder(s[0], SortForListing(s[1..]));
      assert s == [s[0]] + s[1..];
    }
  }

  /** Listing returns exactly the caller's rows, each as often as the table
      holds it, active first and then newest first. */
  lemma UserLibrariesAreTheCallers(rows: seq<Library>, userId: nat)
    ensures multiset(UserLibraries(rows, userId)) == multiset(Owned(rows, userId))
    ensures |UserLibraries(rows, userId)| == |Owned(rows, userId)|
    ensures forall x :: x in UserLibraries(rows, userId) <==> x in rows && x.userId == userId
    ensures SortedForListing(UserLibraries(rows, userId))
  {
    SortForListingOrders(Owned(rows, userId));
    var l := UserLibraries(rows, userId);
    assert |multiset(l)| == |multiset(Owned(rows, userId))|;
    forall x ensures x in l <==> x in Owned(rows, userId) {
      assert x in l <==> x in multiset(l);
    }
  }

  /** The listing has one entry per row the caller owns. */
  lemma UserLibrariesCount(rows: seq<Library>, userId: nat)
    ensures |UserLibraries(rows, userId)| == |Owned(rows, userId)|
  {
    UserLibrariesAreTheCallers(rows, userId);
  }

  /** `getActiveLibrary`: the first of the caller's rows that is active. */
  function ActiveLibrary(rows: seq<Library>, userId: nat): (r: Option<Library>)
    ensures r.Some? ==> r.value in rows && r.value.userId == userId && r.value.isActive
    ensures r.None? <==> !HasActive(rows, userId)
  {
    if rows == [] then None
    else if rows[0].userId == userId && rows[0].isActive then Some(rows[0])
    else
      var r := ActiveLibrary(rows[1..], userId);
      assert HasActive(rows, userId) ==> HasActive(rows[1..], userId) by {
        if HasActive(rows, userId) {
          var j :| 0 <= j < |rows| && rows[j].userId == userId && rows[j].isActive;
          assert rows[1..][j - 1] == rows[j];
        }
      }
      assert HasActive(rows[1..], userId) ==> HasActive(rows, userId) by {
        if HasActive(rows[1..], userId) {
          var j :| 0 <= j < |rows[1..]| && rows[1..][j].userId == userId && rows[1..][j].isActive;
          assert rows[j + 1] == rows[1..][j];
        }
      }
      r
  }

  /** `SELECT * FROM libraries WHERE id = ? AND user_id = ?`. */
  function FindOwned(rows: seq<Library>, id: nat, userId: nat): (r: Option<Library>)
    ensures r.Some? ==> r.value in rows && r.value.id == id && r.value.userId == userId
    ensures r.None? <==> forall x :: x in rows ==> !(x.id == id && x.userId == userId)
  {
    if rows == [] then None
    else if rows[0].id == id && rows[0].userId == userId then Some(rows[0])
    else
      assert forall x :: x in rows ==> x == rows[0] || x in rows[1..];
      FindOwned(rows[1..], id, userId)
  }

  /** `SELECT id FROM libraries WHERE user_id = ? AND id != ? LIMIT 1`. */
  function FirstOtherOwned(rows: seq<Library>, userId: nat, id: nat): (r: Option<Library>)
    ensures r.Some? ==> r.value in rows && r.value.userId == userId && r.value.id != id
    ensures r.None? <==> forall x :: x in rows ==> !(x.userId == userId && x.id != id)
  {
    if rows == [] then None
    else if rows[0].userId == userId && rows[0].id != id then Some(rows[0])
    else
      assert forall x :: x in rows ==> x == rows[0] || x in rows[1..];
      FirstOtherOwned(rows[1..], userId, id)
  }

  /** The only active row of a user is the one `getActiveLibrary` returns. */
  lemma ActiveIsTheOnly(rows: seq<Library>, userId: nat, k: nat)
    requires AtMostOneActive(rows)
    requires k < |rows| && rows[k].userId == userId && rows[k].isActive
    ensures ActiveLibrary(rows, userId) == Some(rows[k])
  {
    assert HasActive(rows, userId);
    var a := ActiveLibrary(rows, userId).value;
    var j :| 0 <= j < |rows| && rows[j] == a;
  }

  /** Under the invariant, the listing starts with the active library that
      `getActiveLibrary` returns, and lists no active library when it
      returns null. */
  lemma ListingStartsWithActive(rows: seq<Library>, userId: nat)
    requires AtMostOneActive(rows)
    ensures ActiveLibrary(rows, userId).Some? ==>
      (|UserLibraries(rows, userId)| > 0 && UserLibraries(rows, userId)[0] == ActiveLibrary(rows, userId).value)
    ensures ActiveLibrary(rows, userId).None? ==>
      (forall x :: x in UserLibraries(rows, userId) ==> !x.isActive)
  {
    UserLibrariesAreTheCallers(rows, userId);
    var l := UserLibraries(rows, userId);
    match ActiveLibrary(rows, userId)
    case None =>
    case Some(a) =>
      assert a in l;
      var k :| 0 <= k < |l| && l[k] == a;
      if k > 0 {
        assert ListedBefore(l[0], l[k]);
      }
      assert l[0] in l;
      var i :| 0 <= i < |rows| && rows[i] == l[0];
      var j :| 0 <= j < |rows| && rows[j] == a;
  }

  /** A user with no row owns no library. */
  lemma {:induction false} NoneOwned(rows: seq<Library>, userId: nat)
    requires forall x :: x in rows ==> x.userId != userId
    ensures Owned(rows, userId) == []
  {
    if rows != [] {
      assert rows[0] in rows;
      NoneOwned(rows[1..], userId);
    }
  }

  /** A user whose only row is `rows[t]` owns at most one library. */
  lemma {:induction false} OwnedOnly(rows: seq<Library>, userId: nat, t: nat)
    requires t < |rows|
    requires forall j :: 0 <= j < |rows| && j != t ==> rows[j].userId != userId
    ensures |Owned(rows, userId)| <= 1
  {
    var tail := rows[1..];
    if t == 0 {
      assert forall x :: x in tail ==> x.userId != userId by {
        forall x | x in tail ensures x.userId != userId {
          var j :| 0 <= j < |tail| && tail[j] == x;
          assert rows[j + 1] == x;
        }
      }
      NoneOwned(tail, userId);
      assert rows == [rows[0]] + tail;
    } else {
      assert rows[0].userId != userId;
      forall j | 0 <= j < |tail| && j != t - 1 ensures tail[j].userId != userId {
        assert tail[j] == rows[j + 1];
      }
      OwnedOnly(tail, userId, t - 1);
    }
  }

  // ------------------------------------------------------- SQL statements

  /** `UPDATE libraries SET is_active = FALSE WHERE user_id = ?`. */
  function DeactivateOwned(rows: seq<Library>, userId: nat): (r: seq<Library>)
    ensures |r| == |rows|
    ensures forall i :: 0 <= i < |rows| ==>
      && r[i] == rows[i].(isActive := r[i].isActive)
      && (rows[i].userId == userId ==> !r[i].isActive)
      && (rows[i].userId != userId ==> r[i] == rows[i])
  {
    seq(|rows|, i requires 0 <= i < |rows| =>
      if rows[i].userId == userId then rows[i].(isActive := false) else rows[i])
  }

  /** `UPDATE libraries SET is_active = TRUE WHERE id = ?`. */
  function ActivateId(rows: seq<Library>, id: nat): (r: seq<Library>)
    ensures |r| == |rows|
    ensures forall i :: 0 <= i < |rows| ==>
      && r[i] == rows[i].(isActive := r[i].isActive)
      && (rows[i].id == id ==> r[i].isActive)
      && (rows[i].id != id ==> r[i] == rows[i])
  {
    seq(|rows|, i requires 0 <= i < |rows| =>
      if rows[i].id == id then rows[i].(isActive := true) else rows[i])
  }

  /** One `column = ?` of an `UPDATE libraries SET ...`. */
  datatype Assignment = SetName(name: string) | SetImageUrl(url: Option<string>)

  /** A row after the assignments, applied left to right. */
  function Assign(lib: Library, fields: seq<Assignment>): (r: Library)
    ensures r.id == lib.id && r.userId == lib.userId && r.isActive == lib.isActive && r.createdAt == lib.createdAt
    decreases |fields|
  {
    if fields == [] then lib
    else
      var next := match fields[0]
        case SetName(n) => lib.(name := n)
        case SetImageUrl(u) => lib.(imageUrl := u);
      Assign(next, fields[1..])
  }

  /** The new name an update body asks for: a string that is not all white
      space, trimmed. */
  function NameChange(name: Field): (change: Option<string>)
    ensures change.Some? <==> name.Str? && !Blank(name.s)
    ensures change.Some? ==> change.value == Trim(name.s) && change.value != ""
  {
    match name
    case Str(s) =>
      TrimEmptyIffBlank(s);
      if Trim(s) != "" then Some(Trim(s)) else None
    case _ => None
  }

  /** The new image URL an update body asks for: any value but a missing
      one, `null` clearing the column. */
  function ImageChange(imageUrl: Field): (change: Option<Option<string>>)
    ensures change.None? <==> imageUrl.Absent?
    ensures imageUrl.Null? ==> change == Some(None)
    ensures imageUrl.Str? ==> change == Some(Some(imageUrl.s))
  {
    match imageUrl
    case Absent => None
    case Null => Some(None)
    case Str(u) => Some(Some(u))
  }

  /** The `SET` list the update handler builds: the name when one is
      given, then the image URL when one is given. */
  function SetList(name: Option<string>, imageUrl: Option<Option<string>>): seq<Assignment> {
    (if name.Some? then [SetName(name.value)] else []) + (if imageUrl.Some? then [SetImageUrl(imageUrl.value)] else [])
  }

  /** Applying the handler's `SET` list sets exactly the columns it names. */
  lemma SetListAssigns(lib: Library, name: Option<string>, imageUrl: Option<Option<string>>)
    ensures Assign(lib, SetList(name, imageUrl)).name == (if name.Some? then name.value else lib.name)
    ensures Assign(lib, SetList(name, imageUrl)).imageUrl == (if imageUrl.Some? then imageUrl.value else lib.imageUrl)
    ensures |SetList(name, imageUrl)| == 0 <==> name.None? && imageUrl.None?
  {
    var fields := SetList(name, imageUrl);
    if name.Some? && imageUrl.Some? {
      var named := lib.(name := name.value);
      var rest := [SetImageUrl(imageUrl.value)];
      assert fields[1..] == rest;
      assert Assign(lib, fields) == Assign(named, rest);
      assert rest[1..] == [];
      assert Assign(named, rest) == named.(imageUrl := imageUrl.value);
    } else if name.Some? {
      assert fields[1..] == [];
    } else if imageUrl.Some? {
      assert fields[1..] == [];
    }
  }

  /** The list the update handler builds by pushing the name assignment,
      when the name is a string that is not blank, and then the image URL
      assignment, when one is given, is the `SET` list. */
  lemma SetListBuilt(name: Field, imageUrl: Field, named: seq<Assignment>, fields: seq<Assignment>)
    requires named == if name.Str? && Trim(name.s) != "" then [SetName(Trim(name.s))] else []
    requires fields == if imageUrl.Absent? then named
                       else named + [SetImageUrl(if imageUrl.Str? then Some(imageUrl.s) else None)]
    ensures fields == SetList(NameChange(name), ImageChange(imageUrl))
  {
    if name.Str? {
      TrimEmptyIffBlank(name.s);
    }
    assert named == if NameChange(name).Some? then [SetName(NameChange(name).value)] else [];
    assert [] + named == named;
  }

  /** `UPDATE libraries SET <fields> WHERE id = ?`. */
  function AssignColumns(rows: seq<Library>, id: nat, fields: seq<Assignment>): (r: seq<Library>)
    ensures |r| == |rows|
    ensures forall i :: 0 <= i < |rows| ==>
      && r[i].id == rows[i].id && r[i].userId == rows[i].userId
      && r[i].isActive == rows[i].isActive && r[i].createdAt == rows[i].createdAt
      && (rows[i].id != id ==> r[i] == rows[i])
  {
    seq(|rows|, i requires 0 <= i < |rows| => if rows[i].id == id then Assign(rows[i], fields) else rows[i])
  }

  /** `DELETE FROM libraries WHERE id = ?`. */
  function DeleteId(rows: seq<Library>, id: nat): (r: seq<Library>)
    ensures |r| <= |rows|
  {
    if rows == [] then []
    else (if rows[0].id == id then [] else [rows[0]]) + DeleteId(rows[1..], id)
  }

  /** The rows a delete leaves are exactly those without that id. */
  lemma {:induction false} DeleteIdKeeps(rows: seq<Library>, id: nat)
    ensures forall x :: x in DeleteId(rows, id) <==> x in rows && x.id != id
  {
    if rows != [] {
      DeleteIdKeeps(rows[1..], id);
      assert rows == [rows[0]] + rows[1..];
    }
  }

  /** The promotion the delete handler performs before removing the row:
      when the row is active, the caller's first other row is activated. */
  function Promote(rows: seq<Library>, userId: nat, target: Library): (r: seq<Library>)
    ensures |r| == |rows|
    ensures forall i :: 0 <= i < |rows| ==> r[i] == rows[i].(isActive := r[i].isActive)
    ensures !target.isActive ==> r == rows
  {
    if target.isActive && FirstOtherOwned(rows, userId, target.id).Some? then
      ActivateId(rows, FirstOtherOwned(rows, userId, target.id).value.id)
    else rows
  }

  // -------------------------------------------------- transition lemmas

  /** Deactivating a user's rows and appending a fresh active row for that
      user keeps the invariant, and the new row becomes the user's active
      library. */
  lemma CreateKeepsInvariant(rows: seq<Library>, lib: Library)
    requires TableInvariant(rows)
    requires lib.isActive
    requires forall i :: 0 <= i < |rows| ==> rows[i].id != lib.id
    ensures TableInvariant(DeactivateOwned(rows, lib.userId) + [lib])
    ensures ActiveLibrary(DeactivateOwned(rows, lib.userId) + [lib], lib.userId) == Some(lib)
  {
    var u := lib.userId;
    var n := |rows|;
    var r := DeactivateOwned(rows, u) + [lib];
    assert forall i :: 0 <= i < n ==> r[i] == (if rows[i].userId == u then rows[i].(isActive := false) else rows[i]);
    assert r[n] == lib;
    forall i, j | 0 <= i < |r| && 0 <= j < |r| && r[i].id == r[j].id ensures i == j {
      if i < n && j < n {
        assert rows[i].id == rows[j].id;
      }
    }
    forall i, j | (0 <= i < |r| && 0 <= j < |r| && r[i].userId == r[j].userId
                   && r[i].isActive && r[j].isActive)
      ensures i == j
    {
      if i < n && j < n {
        assert rows[i].isActive && rows[j].isActive;
      }
    }
    forall i | 0 <= i < |r| ensures HasActive(r, r[i].userId) {
      if r[i].userId == u {
        assert r[n].userId == r[i].userId && r[n].isActive;
      } else {
        assert HasActive(rows, rows[i].userId);
        var j :| 0 <= j < n && rows[j].userId == rows[i].userId && rows[j].isActive;
        assert r[j] == rows[j];
      }
    }
    ActiveIsTheOnly(r, u, n);
  }

  /** What a switch to `rows[t]` does to each row: the target becomes active,
      the caller's other rows inactive, and other users' rows stay. */
  lemma SwitchRows(rows: seq<Library>, userId: nat, t: nat)
    requires IdsUnique(rows) && t < |rows| && rows[t].userId == userId
    ensures |ActivateId(DeactivateOwned(rows, userId), rows[t].id)| == |rows|
    ensures forall i :: 0 <= i < |rows| ==>
      ActivateId(DeactivateOwned(rows, userId), rows[t].id)[i] ==
        if i == t then rows[i].(isActive := true)
        else if rows[i].userId == userId then rows[i].(isActive := false)
        else rows[i]
  {
  }

  /** Rows whose ids are unchanged keep ids unique. */
  lemma SameIdsKeepUnique(rows: seq<Library>, r: seq<Library>)
    requires IdsUnique(rows) && |r| == |rows|
    requires forall i :: 0 <= i < |rows| ==> r[i].id == rows[i].id
    ensures IdsUnique(r)
  {
    forall i, j | 0 <= i < |r| && 0 <= j < |r| && r[i].id == r[j].id ensures i == j {
      assert rows[i].id == rows[j].id;
    }
  }

  /** After a switch, the target is the caller's only active row and other
      users keep at most one each. */
  lemma SwitchKeepsOneActive(rows: seq<Library>, userId: nat, t: nat)
    requires TableInvariant(rows) && t < |rows| && rows[t].userId == userId
    ensures AtMostOneActive(ActivateId(DeactivateOwned(rows, userId), rows[t].id))
  {
    SwitchRows(rows, userId, t);
    var r := ActivateId(DeactivateOwned(rows, userId), rows[t].id);
    forall i, j | (0 <= i < |r| && 0 <= j < |r| && r[i].userId == r[j].userId
                   && r[i].isActive && r[j].isActive)
      ensures i == j
    {
      if r[i].userId != userId {
        assert rows[i].isActive && rows[j].isActive;
      }
    }
  }

  /** After a switch every owner still has an active row. */
  lemma SwitchKeepsOwners(rows: seq<Library>, userId: nat, t: nat)
    requires TableInvariant(rows) && t < |rows| && rows[t].userId == userId
    ensures OwnersHaveActive(ActivateId(DeactivateOwned(rows, userId), rows[t].id))
  {
    SwitchRows(rows, userId, t);
    var r := ActivateId(DeactivateOwned(rows, userId), rows[t].id);
    forall i | 0 <= i < |r| ensures HasActive(r, r[i].userId) {
      if r[i].userId == userId {
        assert r[t].userId == r[i].userId && r[t].isActive;
      } else {
        assert HasActive(rows, rows[i].userId);
        var j :| 0 <= j < |rows| && rows[j].userId == rows[i].userId && rows[j].isActive;
        assert r[j] == rows[j];
      }
    }
  }

  /** A switch to one of the caller's rows keeps the invariant, makes that
      row the caller's active library, changes nothing but active flags, and
      leaves other users' rows as they were. */
  lemma SwitchKeepsInvariant(rows: seq<Library>, userId: nat, t: nat)
    requires TableInvariant(rows) && t < |rows| && rows[t].userId == userId
    ensures var r := ActivateId(DeactivateOwned(rows, userId), rows[t].id);
      && TableInvariant(r)
      && ActiveLibrary(r, userId) == Some(rows[t].(isActive := true))
      && (forall i :: 0 <= i < |rows| ==> r[i] == rows[i].(isActive := r[i].isActive))
      && (forall i :: 0 <= i < |rows| && rows[i].userId != userId ==> r[i] == rows[i])
  {
    SwitchRows(rows, userId, t);
    var r := ActivateId(DeactivateOwned(rows, userId), rows[t].id);
    SameIdsKeepUnique(rows, r);
    SwitchKeepsOneActive(rows, userId, t);
    SwitchKeepsOwners(rows, userId, t);
    ActiveIsTheOnly(r, userId, t);
  }

  /** Switching to the library that is already active changes nothing. */
  lemma SwitchToActiveIsIdempotent(rows: seq<Library>, userId: nat, t: nat)
    requires TableInvariant(rows) && t < |rows| && rows[t].userId == userId && rows[t].isActive
    ensures ActivateId(DeactivateOwned(rows, userId), rows[t].id) == rows
  {
    SwitchRows(rows, userId, t);
    var r := ActivateId(DeactivateOwned(rows, userId), rows[t].id);
    forall i | 0 <= i < |rows| ensures r[i] == rows[i] {
      if i != t && rows[i].userId == userId {
        assert !rows[i].isActive;
      }
    }
  }

  /** An update changes only the row holding that id. */
  lemma UpdateRows(rows: seq<Library>, t: nat, fields: seq<Assignment>)
    requires IdsUnique(rows) && t < |rows|
    ensures forall i :: 0 <= i < |rows| ==>
      AssignColumns(rows, rows[t].id, fields)[i] == if i == t then Assign(rows[t], fields) else rows[i]
  {
  }

  /** An update never changes an id, owner, active flag or creation time,
      so it keeps the invariant. */
  lemma UpdateKeepsInvariant(rows: seq<Library>, id: nat, fields: seq<Assignment>)
    requires TableInvariant(rows)
    ensures TableInvariant(AssignColumns(rows, id, fields))
  {
    var r := AssignColumns(rows, id, fields);
    forall i, j | 0 <= i < |r| && 0 <= j < |r| && r[i].id == r[j].id ensures i == j {
      assert rows[i].id == rows[j].id;
    }
    forall i, j | (0 <= i < |r| && 0 <= j < |r| && r[i].userId == r[j].userId
                   && r[i].isActive && r[j].isActive)
      ensures i == j
    {
      assert rows[i].isActive && rows[j].isActive && rows[i].userId == rows[j].userId;
    }
    forall i | 0 <= i < |r| ensures HasActive(r, r[i].userId) {
      assert HasActive(rows, rows[i].userId);
      var j :| 0 <= j < |rows| && rows[j].userId == rows[i].userId && rows[j].isActive;
      assert r[j].userId == r[i].userId && r[j].isActive;
    }
  }

  /** An update keeps every row stamped by the counter and the clock. */
  lemma UpdateStamps(rows: seq<Library>, id: nat, fields: seq<Assignment>, nextId: nat, clock: nat)
    requires Stamped(rows, nextId, clock)
    ensures Stamped(AssignColumns(rows, id, fields), nextId, clock)
  {
  }

  /** Dropping the first row keeps ids unique. */
  lemma TailUnique(rows: seq<Library>)
    requires IdsUnique(rows) && rows != []
    ensures IdsUnique(rows[1..])
  {
    var tail := rows[1..];
    forall i, j | 0 <= i < |tail| && 0 <= j < |tail| && tail[i].id == tail[j].id ensures i == j {
      assert rows[i + 1].id == rows[j + 1].id;
    }
  }

  /** Deleting an id no row holds changes nothing. */
  lemma {:induction false} DeleteAbsent(rows: seq<Library>, id: nat)
    requires forall i :: 0 <= i < |rows| ==> rows[i].id != id
    ensures DeleteId(rows, id) == rows
  {
    if rows != [] {
      var tail := rows[1..];
      assert rows[0].id != id;
      forall i | 0 <= i < |tail| ensures tail[i].id != id {
        assert tail[i] == rows[i + 1];
      }
      DeleteAbsent(tail, id);
      assert rows == [rows[0]] + tail;
    }
  }

  /** With unique ids, `DELETE ... WHERE id = ?` removes exactly the row
      holding that id and keeps the others in order. */
  lemma {:induction false} DeleteIdAt(rows: seq<Library>, t: nat)
    requires IdsUnique(rows) && t < |rows|
    ensures DeleteId(rows, rows[t].id) == rows[..t] + rows[t + 1..]
  {
    var id := rows[t].id;
    var tail := rows[1..];
    TailUnique(rows);
    if t == 0 {
      forall i | 0 <= i < |tail| ensures tail[i].id != id {
        assert tail[i] == rows[i + 1];
      }
      DeleteAbsent(tail, id);
      assert rows[..0] + rows[1..] == tail;
    } else {
      assert rows[0].id != id;
      assert tail[t - 1] == rows[t];
      DeleteIdAt(tail, t - 1);
      assert rows[..t] + rows[t + 1..] == [rows[0]] + (tail[..t - 1] + tail[t..]);
    }
  }

  /** Removing row `t` keeps the invariant when, leaving that row aside, no
      user has two active rows and every owner has an active row. */
  lemma RemoveKeepsInvariant(p: seq<Library>, t: nat)
    requires t < |p|
    requires IdsUnique(p) && AtMostOneActiveExcept(p, t) && OwnersHaveActiveExcept(p, t)
    ensures TableInvariant(p[..t] + p[t + 1..])
  {
    var q := p[..t] + p[t + 1..];
    RemovedRows(p, t, q);
    RemoveKeepsIds(p, t, q);
    RemoveKeepsOneActive(p, t, q);
    RemoveKeepsOwners(p, t, q);
  }

  /** The rows of `p` but row `t` keep their ids distinct. */
  lemma RemoveKeepsIds(p: seq<Library>, t: nat, q: seq<Library>)
    requires t < |p| && |q| == |p| - 1
    requires forall a :: 0 <= a < |q| ==> q[a] == p[Skip(t, a)]
    requires IdsUnique(p)
    ensures IdsUnique(q)
  {
    forall a, b | 0 <= a < |q| && 0 <= b < |q| && q[a].id == q[b].id ensures a == b {
      assert p[Skip(t, a)].id == p[Skip(t, b)].id;
    }
  }

  /** Removing row `t` leaves at most one active row per user when that
      held with row `t` left aside. */
  lemma RemoveKeepsOneActive(p: seq<Library>, t: nat, q: seq<Library>)
    requires t < |p| && |q| == |p| - 1
    requires forall a :: 0 <= a < |q| ==> q[a] == p[Skip(t, a)]
    requires AtMostOneActiveExcept(p, t)
    ensures AtMostOneActive(q)
  {
    forall a, b | (0 <= a < |q| && 0 <= b < |q| && q[a].userId == q[b].userId
                   && q[a].isActive && q[b].isActive)
      ensures a == b
    {
      var ia, ib := Skip(t, a), Skip(t, b);
      assert p[ia].userId == p[ib].userId && p[ia].isActive && p[ib].isActive;
    }
  }

  /** Removing row `t` leaves every owner an active row when each had one
      besides row `t`. */
  lemma RemoveKeepsOwners(p: seq<Library>, t: nat, q: seq<Library>)
    requires t < |p| && |q| == |p| - 1
    requires forall a :: 0 <= a < |q| ==> q[a] == p[Skip(t, a)]
    requires OwnersHaveActiveExcept(p, t)
    ensures OwnersHaveActive(q)
  {
    forall a | 0 <= a < |q| ensures HasActive(q, q[a].userId) {
      var ia := Skip(t, a);
      assert HasActiveExcept(p, t, p[ia].userId);
      var j :| 0 <= j < |p| && j != t && p[j].userId == p[ia].userId && p[j].isActive;
      var b := if j < t then j else j - 1;
      assert q[b] == p[j];
    }
  }


  /** The caller owns a row besides `rows[t]` when it owns two or more. */
  lemma AnotherOwned(rows: seq<Library>, userId: nat, t: nat) returns (o: nat)
    requires t < |rows| && rows[t].userId == userId
    requires |Owned(rows, userId)| >= 2
    ensures o < |rows| && o != t && rows[o].userId == userId
  {
    if forall j :: 0 <= j < |rows| && j != t ==> rows[j].userId != userId {
      OwnedOnly(rows, userId, t);
      assert false;
    }
    o :| 0 <= o < |rows| && o != t && rows[o].userId == userId;
  }

  /** What the promotion does to each row: only the row at `k`, the caller's
      first other row, may become active, and only when `rows[t]` is. */
  lemma PromoteRows(rows: seq<Library>, userId: nat, t: nat, k: nat)
    requires IdsUnique(rows) && t < |rows| && k < |rows|
    requires FirstOtherOwned(rows, userId, rows[t].id) == Some(rows[k])
    ensures |Promote(rows, userId, rows[t])| == |rows|
    ensures forall i :: 0 <= i < |rows| ==>
      Promote(rows, userId, rows[t])[i] == if rows[t].isActive && i == k then rows[i].(isActive := true) else rows[i]
  {
  }

  /** Leaving the deleted row aside, the promoted table has at most one
      active row per user. */
  lemma PromoteKeepsOneActive(rows: seq<Library>, userId: nat, t: nat, k: nat)
    requires TableInvariant(rows) && t < |rows| && k < |rows| && rows[t].userId == userId
    requires FirstOtherOwned(rows, userId, rows[t].id) == Some(rows[k])
    ensures AtMostOneActiveExcept(Promote(rows, userId, rows[t]), t)
  {
    PromoteRows(rows, userId, t, k);
    var p := Promote(rows, userId, rows[t]);
    forall i, j | (0 <= i < |p| && 0 <= j < |p| && i != t && j != t && p[i].userId == p[j].userId
                   && p[i].isActive && p[j].isActive)
      ensures i == j
    {
      if rows[t].isActive && p[i].userId == userId {
        assert i == k && j == k;
      } else {
        assert rows[i].isActive && rows[j].isActive;
      }
    }
  }

  /** Leaving the deleted row aside, every owner in the promoted table has
      an active row. */
  lemma PromoteKeepsOwners(rows: seq<Library>, userId: nat, t: nat, k: nat)
    requires TableInvariant(rows) && t < |rows| && k < |rows| && rows[t].userId == userId
    requires FirstOtherOwned(rows, userId, rows[t].id) == Some(rows[k])
    ensures OwnersHaveActiveExcept(Promote(rows, userId, rows[t]), t)
  {
    PromoteRows(rows, userId, t, k);
    var p := Promote(rows, userId, rows[t]);
    forall i | 0 <= i < |p| && i != t ensures HasActiveExcept(p, t, p[i].userId) {
      if p[i].userId == userId {
        if rows[t].isActive {
          assert p[k].userId == p[i].userId && p[k].isActive;
        } else {
          assert HasActive(rows, rows[t].userId);
          var j :| 0 <= j < |rows| && rows[j].userId == userId && rows[j].isActive;
          assert p[j] == rows[j];
        }
      } else {
        assert HasActive(rows, rows[i].userId);
        var j :| 0 <= j < |rows| && rows[j].userId == rows[i].userId && rows[j].isActive;
        assert p[j] == rows[j];
      }
    }
  }

  /** The position in the original table of row `a` once row `t` is removed. */
  function Skip(t: nat, a: nat): nat {
    if a < t then a else a + 1
  }

  /** Where each row of a table with row `t` removed comes from. */
  lemma RemovedRows(p: seq<Library>, t: nat, q: seq<Library>)
    requires t < |p| && q == p[..t] + p[t + 1..]
    ensures |q| == |p| - 1
    ensures forall a :: 0 <= a < |q| ==> q[a] == p[Skip(t, a)]
  {
  }

  /** The rows left by a delete are the other rows, in table order, their
      columns unchanged but for the active flag. */
  lemma DeleteSurvivors(rows: seq<Library>, userId: nat, t: nat)
    requires IdsUnique(rows) && t < |rows|
    ensures var r := DeleteId(Promote(rows, userId, rows[t]), rows[t].id);
      && |r| == |rows| - 1
      && (forall i :: 0 <= i < |r| ==> Skip(t, i) < |rows| && r[i] == rows[Skip(t, i)].(isActive := r[i].isActive))
      && (forall i :: 0 <= i < |r| ==> r[i].id != rows[t].id)
  {
    PromoteOnlyFlags(rows, userId, t);
    DeleteFlagged(rows, Promote(rows, userId, rows[t]), t);
  }

  /** Promotion changes active flags only. */
  lemma PromoteOnlyFlags(rows: seq<Library>, userId: nat, t: nat)
    requires IdsUnique(rows) && t < |rows|
    ensures var p := Promote(rows, userId, rows[t]);
      |p| == |rows| && forall i :: 0 <= i < |rows| ==> p[i] == rows[i].(isActive := p[i].isActive)
  {
    var other := FirstOtherOwned(rows, userId, rows[t].id);
    if rows[t].isActive && other.Some? {
      var k :| 0 <= k < |rows| && rows[k] == other.value;
      PromoteRows(rows, userId, t, k);
    }
  }

  /** Deleting row `t`'s id from a copy of `rows` that differs in active
      flags only keeps the other rows, in order. */
  lemma DeleteFlagged(rows: seq<Library>, p: seq<Library>, t: nat)
    requires IdsUnique(rows) && t < |rows| && |p| == |rows|
    requires forall i :: 0 <= i < |rows| ==> p[i] == rows[i].(isActive := p[i].isActive)
    ensures var r := DeleteId(p, rows[t].id);
      && |r| == |rows| - 1
      && (forall i :: 0 <= i < |r| ==> Skip(t, i) < |rows| && r[i] == rows[Skip(t, i)].(isActive := r[i].isActive))
      && (forall i :: 0 <= i < |r| ==> r[i].id != rows[t].id)
  {
    SameIdsKeepUnique(rows, p);
    assert p[t].id == rows[t].id;
    DeleteIdAt(p, t);
    var r := p[..t] + p[t + 1..];
    RemovedRows(p, t, r);
    forall a | 0 <= a < |r|
      ensures r[a] == rows[Skip(t, a)].(isActive := r[a].isActive)
      ensures r[a].id != rows[t].id
    {
      assert r[a] == p[Skip(t, a)];
    }
  }


  /** A delete keeps every row stamped by the counter and the clock. */
  lemma DeleteStamps(rows: seq<Library>, userId: nat, t: nat, nextId: nat, clock: nat)
    requires IdsUnique(rows) && t < |rows| && Stamped(rows, nextId, clock)
    ensures Stamped(DeleteId(Promote(rows, userId, rows[t]), rows[t].id), nextId, clock)
  {
    DeleteSurvivors(rows, userId, t);
  }

  /** Promoting the caller's first other row and then deleting row `t`
      keeps the invariant. */
  lemma PromoteThenDeleteKeepsInvariant(rows: seq<Library>, userId: nat, t: nat, k: nat)
    requires TableInvariant(rows) && t < |rows| && k < |rows| && rows[t].userId == userId
    requires FirstOtherOwned(rows, userId, rows[t].id) == Some(rows[k])
    ensures TableInvariant(DeleteId(Promote(rows, userId, rows[t]), rows[t].id))
  {
    PromoteRows(rows, userId, t, k);
    var p := Promote(rows, userId, rows[t]);
    SameIdsKeepUnique(rows, p);
    PromoteKeepsOneActive(rows, userId, t, k);
    PromoteKeepsOwners(rows, userId, t, k);
    RemoveKeepsInvariant(p, t);
    DeleteIdAt(p, t);
  }

  /** Deleting one of two or more libraries of a user, after the promotion,
      keeps the invariant, removes exactly that row, leaves the user with an
      active library, and changes no surviving row but for its active flag. */
  lemma DeleteKeepsInvariant(rows: seq<Library>, userId: nat, t: nat)
    requires TableInvariant(rows)
    requires t < |rows| && rows[t].userId == userId
    requires |Owned(rows, userId)| >= 2
    ensures var r := DeleteId(Promote(rows, userId, rows[t]), rows[t].id);
      && TableInvariant(r)
      && |r| == |rows| - 1
      && HasActive(r, userId)
  {
    var o := AnotherOwned(rows, userId, t);
    assert rows[o] in rows;
    var other := FirstOtherOwned(rows, userId, rows[t].id);
    var k :| 0 <= k < |rows| && rows[k] == other.value;
    PromoteThenDeleteKeepsInvariant(rows, userId, t, k);
    DeleteSurvivors(rows, userId, t);
    var r := DeleteId(Promote(rows, userId, rows[t]), rows[t].id);
    var ob := if o < t then o else o - 1;
    assert Skip(t, ob) == o;
    assert r[ob].userId == userId;
    assert HasActive(r, r[ob].userId);
  }

  /** Every row's id was handed out by the counter and its creation time
      lies before the clock. */
  predicate Stamped(rows: seq<Library>, nextId: nat, clock: nat) {
    forall i :: 0 <= i < |rows| ==> rows[i].id < nextId && rows[i].createdAt < clock
  }

  /** A create hands out the counter's id and the clock's time, both fresh. */
  lemma CreateStamps(rows: seq<Library>, lib: Library, nextId: nat, clock: nat)
    requires Stamped(rows, nextId, clock) && lib.id == nextId && lib.createdAt == clock
    ensures Stamped(DeactivateOwned(rows, lib.userId) + [lib], nextId + 1, clock + 1)
    ensures forall i :: 0 <= i < |rows| ==> rows[i].id != lib.id
  {
    var r := DeactivateOwned(rows, lib.userId) + [lib];
    assert forall i :: 0 <= i < |rows| ==> r[i].id == rows[i].id && r[i].createdAt == rows[i].createdAt;
  }

  /** Everything the create handler's success path promises of the table
      it leaves. */
  lemma CreateOutcome(rows: seq<Library>, lib: Library, nextId: nat, clock: nat)
    requires TableInvariant(rows) && Stamped(rows, nextId, clock)
    requires lib.id == nextId && lib.createdAt == clock && lib.isActive
    ensures var r := DeactivateOwned(rows, lib.userId) + [lib];
      && TableInvariant(r) && Stamped(r, nextId + 1, clock + 1)
      && ActiveLibrary(r, lib.userId) == Some(lib)
  {
    CreateStamps(rows, lib, nextId, clock);
    CreateKeepsInvariant(rows, lib);
  }

  /** Everything the delete handler's success path promises of the table
      it leaves. */
  lemma DeleteOutcome(rows: seq<Library>, userId: nat, t: nat, nextId: nat, clock: nat)
    requires TableInvariant(rows) && Stamped(rows, nextId, clock)
    requires t < |rows| && rows[t].userId == userId
    requires |Owned(rows, userId)| >= 2
    ensures var r := DeleteId(Promote(rows, userId, rows[t]), rows[t].id);
      && TableInvariant(r) && Stamped(r, nextId, clock)
      && |r| == |rows| - 1
      && ActiveLibrary(r, userId).Some?
  {
    DeleteKeepsInvariant(rows, userId, t);
    DeleteStamps(rows, userId, t, nextId, clock);
  }

  // -------------------------------------------------------------- handlers

  /** The `libraries` table with its AUTO_INCREMENT counter and the clock
      that stamps `created_at`. */
  class LibraryTable {
    var rows: seq<Library>
    var nextId: nat
    var clock: nat

    ghost predicate Valid()
      reads this
    {
      TableInvariant(rows) && Stamped(rows, nextId, clock)
    }

    constructor ()
      ensures Valid() && rows == []
    {
      rows, nextId, clock := [], 1, 1;
    }

    /** GET /api/libraries: the caller's libraries, active first, then newest first. */
    function ListLibraries(userId: nat): (reply: Reply<seq<Library>>)
      reads this
      ensures reply.status == Ok && reply.body.success && reply.body.data.Some?
      ensures SortedForListing(reply.body.data.value)
      ensures multiset(reply.body.data.value) == multiset(Owned(rows, userId))
    {
      UserLibrariesAreTheCallers(rows, userId);
      Respond(Ok, "Libraries retrieved", true, Some(UserLibraries(rows, userId)))
    }

    /** GET /api/libraries/active: the caller's active library, or null. */
    function GetActive(userId: nat): (reply: Reply<Option<Library>>)
      reads this
      ensures reply.status == Ok && reply.body.success && reply.body.data.Some?
      ensures reply.body.data.value.Some? ==>
        (reply.body.data.value.value in rows && reply.body.data.value.value.userId == userId
         && reply.body.data.value.value.isActive)
      ensures reply.body.data.value.None? <==> !HasActive(rows, userId)
    {
      match ActiveLibrary(rows, userId)
      case None => Respond(Ok, "No active library", true, Some(None))
      case Some(lib) => Respond(Ok, "Active library retrieved", true, Some(Some(lib)))
    }

    /** POST /api/libraries. */
    method CreateLibrary(userId: nat, name: Field, imageUrl: Field) returns (reply: Reply<Library>)
      requires Valid()
      modifies this
      ensures Valid()
      ensures reply.status == Created || reply.status == BadRequest
      ensures (!name.Str? || Blank(name.s)) ==> reply == Fail(BadRequest, "Library name is required")
      ensures (name.Str? && !Blank(name.s) && |Owned(old(rows), userId)| >= MaxLibraries) ==>
        reply == Fail(BadRequest, "Maximum number of libraries reached (10)")
      ensures reply.status == BadRequest ==> rows == old(rows) && nextId == old(nextId) && clock == old(clock)
      ensures reply.status == Created <==>
        name.Str? && !Blank(name.s) && |Owned(old(rows), userId)| < MaxLibraries
      ensures reply.status == Created ==>
        && name.Str? && !Blank(name.s) && |Owned(old(rows), userId)| < MaxLibraries
        && reply.body.data.Some?
        && reply.body.data.value == Library(old(nextId), userId, Trim(name.s),
                                            if imageUrl.Str? then Some(imageUrl.s) else None, true, old(clock))
        && rows == DeactivateOwned(old(rows), userId) + [reply.body.data.value]
        && nextId == old(nextId) + 1 && clock == old(clock) + 1
        && ActiveLibrary(rows, userId) == reply.body.data
    {
      if !Truthy(name) || Trim(name.s) == "" {
        if name.Str? {
          TrimEmptyIffBlank(name.s);
        }
        return Fail(BadRequest, "Library name is required");
      }
      TrimEmptyIffBlank(name.s);
      var userLibraries := UserLibraries(rows, userId);
      UserLibrariesCount(rows, userId);
      if |userLibraries| >= MaxLibraries {
        return Fail(BadRequest, "Maximum number of libraries reached (10)");
      }
      var url := if imageUrl.Str? then Some(imageUrl.s) else None;
      var lib := InsertActive(userId, Trim(name.s), url);
      reply := Respond(Created, "Library created successfully", true, Some(lib));
    }

    /** The create handler's two statements: the caller's rows are made
        inactive, then the new row goes in, active, with the next id and
        the current time. */
    method InsertActive(userId: nat, name: string, imageUrl: Option<string>) returns (lib: Library)
      requires Valid()
      modifies this
      ensures Valid()
      ensures lib == Library(old(nextId), userId, name, imageUrl, true, old(clock))
      ensures rows == DeactivateOwned(old(rows), userId) + [lib]
      ensures nextId == old(nextId) + 1 && clock == old(clock) + 1
      ensures ActiveLibrary(rows, userId) == Some(lib)
    {
      lib := Library(nextId, userId, name, imageUrl, true, clock);
      CreateOutcome(rows, lib, nextId, clock);
      rows := DeactivateOwned(rows, userId);
      rows := rows + [lib];
      nextId, clock := nextId + 1, clock + 1;
    }

    /** PUT /api/libraries/:id/switch. */
    method SwitchLibrary(userId: nat, libraryId: nat) returns (reply: Reply<Library>)
      requires Valid()
      modifies this`rows
      ensures Valid()
      ensures nextId == old(nextId) && clock == old(clock)
      ensures FindOwned(old(rows), libraryId, userId).None? ==>
        reply == Fail(NotFound, "Library not found") && rows == old(rows)
      ensures FindOwned(old(rows), libraryId, userId).Some? ==>
        && rows == ActivateId(DeactivateOwned(old(rows), userId), libraryId)
        && reply == Respond(Ok, "Library switched successfully", true,
                            Some(FindOwned(old(rows), libraryId, userId).value.(isActive := true)))
        && ActiveLibrary(rows, userId) == reply.body.data
    {
      var found := FindOwned(rows, libraryId, userId);
      if found.None? {
        return Fail(NotFound, "Library not found");
      }
      var t :| 0 <= t < |rows| && rows[t] == found.value;
      SwitchKeepsInvariant(rows, userId, t);
      var lib := found.value.(isActive := true);
      rows := DeactivateOwned(rows, userId);
      rows := ActivateId(rows, libraryId);
      reply := Respond(Ok, "Library switched successfully", true, Some(lib));
    }

    /** PUT /api/libraries/:id: rename and/or change the image. */
    method UpdateLibrary(userId: nat, libraryId: nat, name: Field, imageUrl: Field) returns (reply: Reply<Library>)
      requires Valid()
      modifies this
      ensures Valid()
      ensures nextId == old(nextId) && clock == old(clock)
      ensures reply.status != Ok ==> rows == old(rows)
      ensures FindOwned(old(rows), libraryId, userId).None? ==> reply == Fail(NotFound, "Library not found")
      ensures (FindOwned(old(rows), libraryId, userId).Some? && name.Null?) ==>
        reply == Fail(ServerError, "Server error")
      ensures (FindOwned(old(rows), libraryId, userId).Some? && !name.Null?
               && NameChange(name).None? && ImageChange(imageUrl).None?) ==>
        reply == Fail(BadRequest, "No changes provided")
      ensures reply.status == Ok <==>
        && FindOwned(old(rows), libraryId, userId).Some? && !name.Null?
        && SetList(NameChange(name), ImageChange(imageUrl)) != []
      ensures reply.status == Ok ==>
        && FindOwned(old(rows), libraryId, userId).Some? && !name.Null?
        && var fields := SetList(NameChange(name), ImageChange(imageUrl));
        && fields != []
        && rows == AssignColumns(old(rows), libraryId, fields)
        && reply == Respond(Ok, "Library updated successfully", true,
                            Some(Assign(FindOwned(old(rows), libraryId, userId).value, fields)))
    {
      var found := FindOwned(rows, libraryId, userId);
      if found.None? {
        return Fail(NotFound, "Library not found");
      }
      if name.Null? {
        // `null.trim()` throws; the handler's catch answers 500.
        return Fail(ServerError, "Server error");
      }
      var fields: seq<Assignment> := [];
      if name.Str? && Trim(name.s) != "" {
        fields := [SetName(Trim(name.s))];
      }
      ghost var named := fields;
      if !imageUrl.Absent? {
        fields := fields + [SetImageUrl(if imageUrl.Str? then Some(imageUrl.s) else None)];
      }
      SetListBuilt(name, imageUrl, named, fields);
      if |fields| == 0 {
        return Fail(BadRequest, "No changes provided");
      }
      AssignRows(libraryId, fields);
      var lib := Assign(found.value, fields);
      reply := Respond(Ok, "Library updated successfully", true, Some(lib));
    }

    /** The update handler's statement: the assignments applied to the row
        with that id, the invariant kept. */
    method AssignRows(id: nat, fields: seq<Assignment>)
      requires Valid()
      modifies this`rows
      ensures Valid()
      ensures rows == AssignColumns(old(rows), id, fields)
    {
      UpdateKeepsInvariant(rows, id, fields);
      UpdateStamps(rows, id, fields, nextId, clock);
      rows := AssignColumns(rows, id, fields);
    }

    /** DELETE /api/libraries/:id. */
    method DeleteLibrary(userId: nat, libraryId: nat) returns (reply: Reply<()>)
      requires Valid()
      modifies this`rows
      ensures Valid()
      ensures nextId == old(nextId) && clock == old(clock)
      ensures reply.status != Ok ==> rows == old(rows)
      ensures FindOwned(old(rows), libraryId, userId).None? ==> reply == Fail(NotFound, "Library not found")
      ensures (FindOwned(old(rows), libraryId, userId).Some? && |Owned(old(rows), userId)| <= 1) ==>
        reply == Fail(BadRequest, "Cannot delete the last library")
      ensures reply.status == Ok <==>
        FindOwned(old(rows), libraryId, userId).Some? && |Owned(old(rows), userId)| >= 2
      ensures reply.status == Ok ==>
        && FindOwned(old(rows), libraryId, userId).Some? && |Owned(old(rows), userId)| >= 2
        && reply == Respond(Ok, "Library deleted successfully", true)
        && rows == DeleteId(Promote(old(rows), userId, FindOwned(old(rows), libraryId, userId).value), libraryId)
        && |rows| == |old(rows)| - 1
        && ActiveLibrary(rows, userId).Some?
    {
      var found := FindOwned(rows, libraryId, userId);
      if found.None? {
        return Fail(NotFound, "Library not found");
      }
      var userLibraries := UserLibraries(rows, userId);
      UserLibrariesCount(rows, userId);
      if |userLibraries| <= 1 {
        return Fail(BadRequest, "Cannot delete the last library");
      }
      PromoteAndDelete(userId, found.value);
      reply := Respond(Ok, "Library deleted successfully", true);
    }

    /** The delete handler's statements once the row is known to be one of
        two or more of the caller's: when it is the active one, the caller's
        first other row becomes active; then the row goes. */
    method PromoteAndDelete(userId: nat, library: Library)
      requires Valid()
      requires library in rows && library.userId == userId
      requires |Owned(rows, userId)| >= 2
      modifies this`rows
      ensures Valid()
      ensures rows == DeleteId(Promote(old(rows), userId, library), library.id)
      ensures |rows| == |old(rows)| - 1
      ensures ActiveLibrary(rows, userId).Some?
    {
      var t :| 0 <= t < |rows| && rows[t] == library;
      DeleteOutcome(rows, userId, t, nextId, clock);
      if library.isActive {
        var other := FirstOtherOwned(rows, userId, library.id);
        if other.Some? {
          rows := ActivateId(rows, other.value.id);
        }
      }
      rows := DeleteId(rows, library.id);
    }
  }
}
