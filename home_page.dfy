/** The home page's view of the caller's libraries: which one is active,
    how a switch is reflected locally, and the switch button and counter. */
module HomePage {
  import opened Common
  import LibrariesRoutes

  type Library = LibrariesRoutes.Library

  /** What the page shows: the list as fetched and the active library. */
  datatype HomeView = HomeView(libraries: seq<Library>, active: Option<Library>)

  /** The index of the first entry whose `isActive` is `flag`, or the
      list's length when there is none (`findIndex`). */
  function FirstWhere(libraries: seq<Library>, flag: bool): (k: nat)
    ensures k <= |libraries|
    ensures forall j :: 0 <= j < k ==> libraries[j].isActive != flag
    ensures k < |libraries| ==> libraries[k].isActive == flag
  {
    if libraries == [] then 0
    else if libraries[0].isActive == flag then 0
    else 1 + FirstWhere(libraries[1..], flag)
  }

  /** `libraries.find((lib) => lib.isActive) || null`. */
  function FindActive(libraries: seq<Library>): (active: Option<Library>)
    ensures active.None? <==> forall i :: 0 <= i < |libraries| ==> !libraries[i].isActive
    ensures active.Some? ==>
      (active.value.isActive &&
       exists k :: 0 <= k < |libraries| && libraries[k] == active.value
                   && forall j :: 0 <= j < k ==> !libraries[j].isActive)
  {
    var k := FirstWhere(libraries, true);
    if k < |libraries| then Some(libraries[k]) else None
  }

  /** The list after a switch to `id`: every entry keeps its place and its
      fields, and is active exactly when it has that id. */
  function SwitchUpdate(libraries: seq<Library>, id: nat): (updated: seq<Library>)
    ensures |updated| == |libraries|
    ensures forall i :: 0 <= i < |libraries| ==>
      updated[i] == libraries[i].(isActive := updated[i].isActive)
      && (updated[i].isActive <==> libraries[i].id == id)
  {
    seq(|libraries|, i requires 0 <= i < |libraries| => libraries[i].(isActive := libraries[i].id == id))
  }

  /** Applying the same switch twice changes nothing more. */
  lemma SwitchUpdateIdempotent(libraries: seq<Library>, id: nat)
    ensures SwitchUpdate(SwitchUpdate(libraries, id), id) == SwitchUpdate(libraries, id)
  {
  }

  /** No two entries share an id. */
  predicate DistinctIds(libraries: seq<Library>) {
    forall i, j :: 0 <= i < |libraries| && 0 <= j < |libraries| && libraries[i].id == libraries[j].id ==> i == j
  }

  /** After switching to an entry of a list with distinct ids, the active
      library found in the list is that entry, now active: the same value
      the page takes from the server's answer. */
  lemma SwitchedListShowsTarget(libraries: seq<Library>, k: nat)
    requires DistinctIds(libraries) && k < |libraries|
    ensures FindActive(SwitchUpdate(libraries, libraries[k].id)) == Some(libraries[k].(isActive := true))
  {
    var updated := SwitchUpdate(libraries, libraries[k].id);
    var found := FindActive(updated);
    assert updated[k].isActive;
    var m :| 0 <= m < |updated| && updated[m] == found.value && forall j :: 0 <= j < m ==> !updated[j].isActive;
    assert libraries[m].id == libraries[k].id;
  }

  /** What a switch request leaves on the page, and the alert it raises. */
  datatype SwitchResult = SwitchResult(view: HomeView, alert: Option<string>)

  /** `switchLibrary(id)` once its request has settled: on success the
      answer becomes the active library and the list is updated locally;
      otherwise the view is unchanged, and a thrown error raises an alert. */
  function AfterSwitch(view: HomeView, id: nat, answer: ApiReply<Library>): (r: SwitchResult)
    ensures answer.Answered? && answer.success ==>
      r == SwitchResult(HomeView(SwitchUpdate(view.libraries, id), Some(answer.data)), None)
    ensures !(answer.Answered? && answer.success) ==> r.view == view
    ensures answer.Failed? ==> r.alert == Some(MessageOr(answer.message, "Failed to switch library. Please try again."))
    ensures answer.Answered? ==> r.alert.None?
  {
    match answer
    case Answered(success, library) =>
      if success then SwitchResult(HomeView(SwitchUpdate(view.libraries, id), Some(library)), None)
      else SwitchResult(view, None)
    case Failed(message) => SwitchResult(view, Some(MessageOr(message, "Failed to switch library. Please try again.")))
  }

  /** `libraries.filter((lib) => !lib.isActive).length`. */
  function InactiveCount(libraries: seq<Library>): (n: nat)
    ensures n <= |libraries|
    ensures n == 0 <==> forall i :: 0 <= i < |libraries| ==> libraries[i].isActive
  {
    if libraries == [] then 0
    else
      assert forall i :: 1 <= i < |libraries| ==> libraries[i] == libraries[1..][i - 1];
      (if libraries[0].isActive then 0 else 1) + InactiveCount(libraries[1..])
  }

  /** The entries' `isActive` flags, in list order. */
  function Flags(libraries: seq<Library>): (flags: seq<bool>)
    ensures |flags| == |libraries|
  {
    seq(|libraries|, i requires 0 <= i < |libraries| => libraries[i].isActive)
  }

  /** The counter is the number of inactive entries: the number of times
      `false` occurs among the flags. */
  lemma {:induction false} InactiveCountCounts(libraries: seq<Library>)
    ensures InactiveCount(libraries) == multiset(Flags(libraries))[false]
  {
    if libraries != [] {
      InactiveCountCounts(libraries[1..]);
      assert Flags(libraries) == [libraries[0].isActive] + Flags(libraries[1..]);
    }
  }

  /** The button that switches to `libraries.find((lib) => !lib.isActive)`:
      the id it targets, if it is shown. */
  function SwitchTarget(libraries: seq<Library>): (target: Option<nat>)
    ensures target.None? <==> forall i :: 0 <= i < |libraries| ==> libraries[i].isActive
    ensures target.Some? ==>
      exists k :: 0 <= k < |libraries| && !libraries[k].isActive && libraries[k].id == target.value
                  && forall j :: 0 <= j < k ==> libraries[j].isActive
  {
    var k := FirstWhere(libraries, false);
    if k < |libraries| then Some(libraries[k].id) else None
  }

  /** "Switch Library" is shown exactly when there is an inactive library,
      and then it has a target. */
  lemma SwitchButtonHasTarget(libraries: seq<Library>)
    ensures InactiveCount(libraries) > 0 <==> SwitchTarget(libraries).Some?
  {
  }

  /** A switch leaves a list with no entry of that id all inactive. */
  lemma {:induction false} SwitchToAbsentId(libraries: seq<Library>, id: nat)
    requires forall i :: 0 <= i < |libraries| ==> libraries[i].id != id
    ensures InactiveCount(SwitchUpdate(libraries, id)) == |libraries|
  {
    if libraries != [] {
      assert SwitchUpdate(libraries, id)[1..] == SwitchUpdate(libraries[1..], id);
      SwitchToAbsentId(libraries[1..], id);
    }
  }

  /** After switching to one entry of a list with distinct ids, "Available
      to Switch" counts every other entry. */
  lemma {:induction false} SwitchLeavesOthersAvailable(libraries: seq<Library>, k: nat)
    requires DistinctIds(libraries) && k < |libraries|
    ensures InactiveCount(SwitchUpdate(libraries, libraries[k].id)) == |libraries| - 1
  {
    var id := libraries[k].id;
    var tail := libraries[1..];
    assert SwitchUpdate(libraries, id)[1..] == SwitchUpdate(tail, id);
    if k == 0 {
      SwitchToAbsentId(tail, id);
    } else {
      assert DistinctIds(tail);
      assert tail[k - 1] == libraries[k];
      SwitchLeavesOthersAvailable(tail, k - 1);
    }
  }

  // ------------------------------------------------- agreement with server

  /** The page reads the active library off the server's listing and gets
      exactly what the server's own lookup returns. */
  lemma ListingShowsServerActive(rows: seq<Library>, userId: nat)
    requires LibrariesRoutes.AtMostOneActive(rows)
    ensures FindActive(LibrariesRoutes.UserLibraries(rows, userId)) == LibrariesRoutes.ActiveLibrary(rows, userId)
  {
    LibrariesRoutes.ListingStartsWithActive(rows, userId);
    var listing := LibrariesRoutes.UserLibraries(rows, userId);
    if LibrariesRoutes.ActiveLibrary(rows, userId).None? {
      assert forall i :: 0 <= i < |listing| ==> listing[i] in listing;
    }
  }

  /** The server's table after a switch to `id`, by `userId`. */
  function ServerAfterSwitch(rows: seq<Library>, userId: nat, id: nat): seq<Library> {
    LibrariesRoutes.ActivateId(LibrariesRoutes.DeactivateOwned(rows, userId), id)
  }

  /** One of the caller's rows after the server's switch. */
  lemma ServerSwitchRow(rows: seq<Library>, userId: nat, id: nat, j: nat)
    requires j < |rows|
    ensures |ServerAfterSwitch(rows, userId, id)| == |rows|
    ensures ServerAfterSwitch(rows, userId, id)[j].userId == rows[j].userId
    ensures rows[j].userId == userId ==>
      ServerAfterSwitch(rows, userId, id)[j] == rows[j].(isActive := rows[j].id == id)
  {
  }

  /** Every entry of the page's updated list is one of the caller's rows
      in the server's updated table. */
  lemma LocalEntryOnServer(rows: seq<Library>, userId: nat, id: nat, i: nat)
    requires i < |LibrariesRoutes.UserLibraries(rows, userId)|
    ensures SwitchUpdate(LibrariesRoutes.UserLibraries(rows, userId), id)[i] in ServerAfterSwitch(rows, userId, id)
    ensures SwitchUpdate(LibrariesRoutes.UserLibraries(rows, userId), id)[i].userId == userId
  {
    var listing := LibrariesRoutes.UserLibraries(rows, userId);
    LibrariesRoutes.UserLibrariesAreTheCallers(rows, userId);
    assert listing[i] in listing;
    var j :| 0 <= j < |rows| && rows[j] == listing[i];
    ServerSwitchRow(rows, userId, id, j);
  }

  /** Every one of the caller's rows in the server's updated table is an
      entry of the page's updated list. */
  lemma ServerRowOnPage(rows: seq<Library>, userId: nat, id: nat, j: nat)
    requires j < |rows| && rows[j].userId == userId
    ensures ServerAfterSwitch(rows, userId, id)[j] in SwitchUpdate(LibrariesRoutes.UserLibraries(rows, userId), id)
  {
    var listing := LibrariesRoutes.UserLibraries(rows, userId);
    LibrariesRoutes.UserLibrariesAreTheCallers(rows, userId);
    assert rows[j] in rows;
    var i :| 0 <= i < |listing| && listing[i] == rows[j];
    ServerSwitchRow(rows, userId, id, j);
    assert SwitchUpdate(listing, id)[i] == ServerAfterSwitch(rows, userId, id)[j];
  }

  /** The list the page shows after a switch holds the same libraries as
      the server's table holds for the caller after that switch. */
  lemma LocalSwitchMatchesServer(rows: seq<Library>, userId: nat, id: nat)
    ensures forall x :: x in SwitchUpdate(LibrariesRoutes.UserLibraries(rows, userId), id) <==>
      x in ServerAfterSwitch(rows, userId, id) && x.userId == userId
  {
    var local := SwitchUpdate(LibrariesRoutes.UserLibraries(rows, userId), id);
    var server := ServerAfterSwitch(rows, userId, id);
    forall x | x in local
      ensures x in server && x.userId == userId
    {
      var i :| 0 <= i < |local| && local[i] == x;
      LocalEntryOnServer(rows, userId, id, i);
    }
    forall x | x in server && x.userId == userId
      ensures x in local
    {
      var j :| 0 <= j < |server| && server[j] == x;
      ServerSwitchRow(rows, userId, id, j);
      ServerRowOnPage(rows, userId, id, j);
    }
  }
}
