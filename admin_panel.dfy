/** The user-management page of components/admin_panel.py: listing the
    users table newest first, the admin allow-list, the search box, the four
    sort modes and deleting a user by id. */
module AdminPanel {
  import opened Wrappers
  import opened Text
  import opened Session
  import opened Auth

  /** A row of `SELECT id, username, email, created_at FROM users`. */
  datatype UserSummary = UserSummary(id: int, username: string, email: string, createdAt: string)

  function Summary(u: UserRecord): UserSummary {
    UserSummary(u.id, u.username, u.email, u.createdAt)
  }

  // ---------------------------------------------------------------------
  // Orders and a stable sort

  /** The orders the page shows the list in. */
  datatype Order =
    | NewestFirst   // ORDER BY created_at DESC
    | OldestFirst   // created_at ascending
    | UsernameAsc   // sorted(key=username.lower())
    | UsernameDesc  // sorted(key=username.lower(), reverse=True)

  function Key(o: Order, u: UserSummary): string {
    if o.NewestFirst? || o.OldestFirst? then u.createdAt else Lower(u.username)
  }

  /** `a` may come before `b` in order `o`. */
  predicate Le(o: Order, a: UserSummary, b: UserSummary) {
    if o.OldestFirst? || o.UsernameAsc? then LexLe(Key(o, a), Key(o, b))
    else LexLe(Key(o, b), Key(o, a))
  }

  lemma LeTotal(o: Order, a: UserSummary, b: UserSummary)
    ensures Le(o, a, b) || Le(o, b, a)
  {
    LexLeTotal(Key(o, a), Key(o, b));
  }

  lemma LeTransitive(o: Order, a: UserSummary, b: UserSummary, c: UserSummary)
    requires Le(o, a, b) && Le(o, b, c)
    ensures Le(o, a, c)
  {
    if o.OldestFirst? || o.UsernameAsc? {
      LexLeTransitive(Key(o, a), Key(o, b), Key(o, c));
    } else {
      LexLeTransitive(Key(o, c), Key(o, b), Key(o, a));
    }
  }

  predicate SortedBy(o: Order, xs: seq<UserSummary>) {
    forall i, j :: 0 <= i < j < |xs| ==> Le(o, xs[i], xs[j])
  }

  /** Insert `x` into a sorted list ahead of every element it may precede;
      `x` goes before elements with an equal key, which keeps the sort stable. */
  function Insert(o: Order, x: UserSummary, ys: seq<UserSummary>): seq<UserSummary> {
    if ys == [] || Le(o, x, ys[0]) then [x] + ys
    else [ys[0]] + Insert(o, x, ys[1..])
  }

  /** Python's stable `sorted` in order `o` (insertion sort). */
  function Sort(o: Order, xs: seq<UserSummary>): seq<UserSummary> {
    if xs == [] then [] else Insert(o, xs[0], Sort(o, xs[1..]))
  }

  /** Putting `y` in front of a sorted list that `y` may precede keeps it sorted. */
  lemma ConsSorted(o: Order, y: UserSummary, t: seq<UserSummary>)
    requires SortedBy(o, t)
    requires forall k :: 0 <= k < |t| ==> Le(o, y, t[k])
    ensures SortedBy(o, [y] + t)
  {
    var r := [y] + t;
    forall i, j | 0 <= i < j < |r|
      ensures Le(o, r[i], r[j])
    {
      assert r[j] == t[j - 1];
      if i > 0 {
        assert r[i] == t[i - 1];
      }
    }
  }

  lemma {:induction false} InsertMultiset(o: Order, x: UserSummary, ys: seq<UserSummary>)
    ensures multiset(Insert(o, x, ys)) == multiset(ys) + multiset{x}
  {
    if ys != [] && !Le(o, x, ys[0]) {
      InsertMultiset(o, x, ys[1..]);
      assert ys == [ys[0]] + ys[1..];
    }
  }

  /** An element that may precede `x` and all of `ys` may precede all of
      `Insert(o, x, ys)`. */
  lemma {:induction false} InsertAllAfter(o: Order, y: UserSummary, x: UserSummary, ys: seq<UserSummary>)
    requires Le(o, y, x)
    requires forall k :: 0 <= k < |ys| ==> Le(o, y, ys[k])
    ensures forall k :: 0 <= k < |Insert(o, x, ys)| ==> Le(o, y, Insert(o, x, ys)[k])
  {
    if ys != [] && !Le(o, x, ys[0]) {
      InsertAllAfter(o, y, x, ys[1..]);
    }
  }

  lemma {:induction false} InsertSorted(o: Order, x: UserSummary, ys: seq<UserSummary>)
    requires SortedBy(o, ys)
    ensures multiset(Insert(o, x, ys)) == multiset(ys) + multiset{x}
    ensures SortedBy(o, Insert(o, x, ys))
  {
    InsertMultiset(o, x, ys);
    if ys == [] {
    } else if Le(o, x, ys[0]) {
      forall k | 0 <= k < |ys|
        ensures Le(o, x, ys[k])
      {
        if k > 0 {
          LeTransitive(o, x, ys[0], ys[k]);
        }
      }
      ConsSorted(o, x, ys);
    } else {
      LeTotal(o, x, ys[0]);
      var tail := ys[1..];
      assert SortedBy(o, tail);
      InsertSorted(o, x, tail);
      InsertAllAfter(o, ys[0], x, tail);
      ConsSorted(o, ys[0], Insert(o, x, tail));
    }
  }

  /** Sorting returns a permutation of its input, sorted in order `o`. */
  lemma {:induction false} SortSpec(o: Order, xs: seq<UserSummary>)
    ensures multiset(Sort(o, xs)) == multiset(xs)
    ensures SortedBy(o, Sort(o, xs))
  {
    if xs != [] {
      SortSpec(o, xs[1..]);
      InsertSorted(o, xs[0], Sort(o, xs[1..]));
      assert xs == [xs[0]] + xs[1..];
    }
  }

  /** Sorting an already sorted list changes nothing. */
  lemma {:induction false} SortSortedIsIdentity(o: Order, xs: seq<UserSummary>)
    requires SortedBy(o, xs)
    ensures Sort(o, xs) == xs
  {
    if xs != [] {
      SortSortedIsIdentity(o, xs[1..]);
      assert Sort(o, xs[1..]) == xs[1..];
      if |xs| > 1 {
        assert Le(o, xs[0], xs[1]);
      }
    }
  }

  /** The entries of `xs` whose key in order `o` is `k`, in list order. */
  function WithKey(o: Order, xs: seq<UserSummary>, k: string): seq<UserSummary> {
    if xs == [] then []
    else (if Key(o, xs[0]) == k then [xs[0]] else []) + WithKey(o, xs[1..], k)
  }

  /** Entries with the same key may precede each other in any order. */
  lemma LeSameKey(o: Order, a: UserSummary, b: UserSummary)
    ensures Key(o, a) == Key(o, b) ==> Le(o, a, b)
  {
    LexLeReflexive(Key(o, a));
  }

  lemma WithKeyCons(o: Order, a: UserSummary, t: seq<UserSummary>, k: string)
    ensures WithKey(o, [a] + t, k) == (if Key(o, a) == k then [a] else []) + WithKey(o, t, k)
  {
    assert ([a] + t)[1..] == t;
  }

  /** Inserting `x` puts it ahead of every entry with the same key. */
  lemma {:induction false} InsertWithKey(o: Order, x: UserSummary, ys: seq<UserSummary>, k: string)
    ensures WithKey(o, Insert(o, x, ys), k) == (if Key(o, x) == k then [x] else []) + WithKey(o, ys, k)
  {
    if ys == [] || Le(o, x, ys[0]) {
      assert Insert(o, x, ys) == [x] + ys;
      WithKeyCons(o, x, ys, k);
    } else {
      var y, tail := ys[0], ys[1..];
      var rest := Insert(o, x, tail);
      assert Insert(o, x, ys) == [y] + rest;
      assert ys == [y] + tail;
      WithKeyCons(o, y, rest, k);
      WithKeyCons(o, y, tail, k);
      InsertWithKey(o, x, tail, k);
      // `x` may not precede `y`, so the two keys differ.
      LeSameKey(o, x, y);
      if Key(o, x) == k {
        assert WithKey(o, Insert(o, x, ys), k) == [x] + WithKey(o, tail, k);
      } else {
        assert WithKey(o, Insert(o, x, ys), k) == WithKey(o, ys, k);
      }
    }
  }

  /** `sorted` is stable: entries with equal keys keep their input order. */
  lemma {:induction false} SortStable(o: Order, xs: seq<UserSummary>, k: string)
    ensures WithKey(o, Sort(o, xs), k) == WithKey(o, xs, k)
  {
    if xs != [] {
      SortStable(o, xs[1..], k);
      InsertWithKey(o, xs[0], Sort(o, xs[1..]), k);
    }
  }

  function Reverse(xs: seq<UserSummary>): seq<UserSummary> {
    seq(|xs|, i requires 0 <= i < |xs| => xs[|xs| - 1 - i])
  }

  /** `users[::-1]` of a newest-first list is an oldest-first list, with
      exactly the same entries, and reversing twice gives the list back. */
  lemma ReverseNewestIsOldest(xs: seq<UserSummary>)
    requires SortedBy(NewestFirst, xs)
    ensures SortedBy(OldestFirst, Reverse(xs))
    ensures multiset(Reverse(xs)) == multiset(xs)
    ensures Reverse(Reverse(xs)) == xs
  {
    var r := Reverse(xs);
    forall i, j | 0 <= i < j < |r|
      ensures Le(OldestFirst, r[i], r[j])
    {
      assert Le(NewestFirst, xs[|xs| - 1 - j], xs[|xs| - 1 - i]);
    }
    ReverseMultiset(xs);
  }

  lemma {:induction false} ReverseMultiset(xs: seq<UserSummary>)
    ensures multiset(Reverse(xs)) == multiset(xs)
  {
    if xs != [] {
      var init := xs[..|xs| - 1];
      ReverseMultiset(init);
      assert Reverse(xs) == [xs[|xs| - 1]] + Reverse(init);
      assert xs == init + [xs[|xs| - 1]];
    }
  }

  // ---------------------------------------------------------------------
  // Listing, search and sort

  /** `get_all_users()`: every row's id, username, email and creation time,
      newest first. */
  function GetAllUsers(users: seq<UserRecord>): seq<UserSummary> {
    Sort(NewestFirst, seq(|users|, i requires 0 <= i < |users| => Summary(users[i])))
  }

  /** The listing holds one summary per row and is newest first. */
  lemma GetAllUsersSpec(users: seq<UserRecord>)
    ensures |GetAllUsers(users)| == |users|
    ensures multiset(GetAllUsers(users)) == multiset(seq(|users|, i requires 0 <= i < |users| => Summary(users[i])))
    ensures SortedBy(NewestFirst, GetAllUsers(users))
    ensures forall s :: s in GetAllUsers(users) <==> exists i :: 0 <= i < |users| && Summary(users[i]) == s
  {
    var all := seq(|users|, i requires 0 <= i < |users| => Summary(users[i]));
    SortSpec(NewestFirst, all);
    assert |multiset(GetAllUsers(users))| == |multiset(all)|;
    forall s
      ensures s in GetAllUsers(users) <==> exists i :: 0 <= i < |users| && Summary(users[i]) == s
    {
      if exists i :: 0 <= i < |users| && Summary(users[i]) == s {
        var i :| 0 <= i < |users| && Summary(users[i]) == s;
        assert all[i] == s;
        assert s in multiset(all);
        assert s in multiset(GetAllUsers(users));
      }
      if s in GetAllUsers(users) {
        assert s in multiset(GetAllUsers(users));
        assert s in all;
        var i :| 0 <= i < |all| && all[i] == s;
        assert Summary(users[i]) == s;
      }
    }
  }

  /** The search box matches a user when the lower-cased term occurs in the
      lower-cased username or the lower-cased email. */
  predicate Hit(term: string, u: UserSummary) {
    Contains(Lower(u.username), Lower(term)) || Contains(Lower(u.email), Lower(term))
  }

  function FilterHits(term: string, users: seq<UserSummary>): seq<UserSummary> {
    if users == [] then []
    else FilterHits(term, users[..|users| - 1]) + (if Hit(term, users[|users| - 1]) then [users[|users| - 1]] else [])
  }

  /** The search filter, applied only when a term was typed. */
  function SearchFilter(term: string, users: seq<UserSummary>): seq<UserSummary> {
    if term != [] then FilterHits(term, users) else users
  }

  /** The filter keeps exactly the users the term hits. */
  lemma {:induction false} FilterHitsMembers(term: string, users: seq<UserSummary>)
    ensures forall u :: u in FilterHits(term, users) <==> u in users && Hit(term, u)
  {
    if users != [] {
      FilterHitsMembers(term, users[..|users| - 1]);
      assert users == users[..|users| - 1] + [users[|users| - 1]];
    }
  }

  /** The filter keeps the order of the list: filtering a concatenation is
      concatenating the filtered parts. */
  lemma {:induction false} FilterHitsAppend(term: string, a: seq<UserSummary>, b: seq<UserSummary>)
    ensures FilterHits(term, a + b) == FilterHits(term, a) + FilterHits(term, b)
  {
    if b == [] {
      assert a + b == a;
    } else {
      assert (a + b)[..|a + b| - 1] == a + b[..|b| - 1];
      FilterHitsAppend(term, a, b[..|b| - 1]);
    }
  }

  /** A filtered sorted list is still sorted. */
  lemma {:induction false} FilterHitsSorted(o: Order, term: string, users: seq<UserSummary>)
    requires SortedBy(o, users)
    ensures SortedBy(o, FilterHits(term, users))
  {
    if users != [] {
      var init := users[..|users| - 1];
      var last := users[|users| - 1];
      FilterHitsSorted(o, term, init);
      FilterHitsMembers(term, init);
      var f := FilterHits(term, init);
      forall i | 0 <= i < |f|
        ensures Le(o, f[i], last)
      {
        assert f[i] in init;
        var m :| 0 <= m < |init| && init[m] == f[i];
        assert users[m] == f[i];
      }
    }
  }

  /** The search keeps exactly the users whose lower-cased username or email
      contains the lower-cased term; an empty term keeps the whole list. */
  lemma SearchFilterSpec(term: string, users: seq<UserSummary>)
    ensures forall u :: u in SearchFilter(term, users) <==> u in users && (term == [] || Hit(term, u))
    ensures term == [] ==> SearchFilter(term, users) == users
  {
    FilterHitsMembers(term, users);
  }

  /** The sort select box: "Oldest First" reverses the newest-first list,
      the two username options sort by lower-cased username, and any other
      option ("Newest First") keeps the list as it is. */
  function SortUsers(users: seq<UserSummary>, option: string): seq<UserSummary> {
    if option == "Oldest First" then Reverse(users)
    else if option == "Username A-Z" then Sort(UsernameAsc, users)
    else if option == "Username Z-A" then Sort(UsernameDesc, users)
    else users
  }

  /** The list the page shows for a search term and a sort option. */
  function Listing(users: seq<UserRecord>, term: string, option: string): seq<UserSummary> {
    SortUsers(SearchFilter(term, GetAllUsers(users)), option)
  }

  /** Whatever the option, the page shows exactly the users the search keeps,
      in the order the option names. */
  lemma ListingSpec(users: seq<UserRecord>, term: string, option: string)
    ensures var l := Listing(users, term, option);
            var kept := SearchFilter(term, GetAllUsers(users));
            multiset(l) == multiset(kept) &&
            (option == "Oldest First" ==> SortedBy(OldestFirst, l)) &&
            (option == "Username A-Z" ==> SortedBy(UsernameAsc, l)) &&
            (option == "Username Z-A" ==> SortedBy(UsernameDesc, l)) &&
            (option !in {"Oldest First", "Username A-Z", "Username Z-A"} ==> SortedBy(NewestFirst, l))
  {
    var all := GetAllUsers(users);
    GetAllUsersSpec(users);
    var kept := SearchFilter(term, all);
    if term != [] {
      FilterHitsSorted(NewestFirst, term, all);
    }
    assert SortedBy(NewestFirst, kept);
    if option == "Oldest First" {
      ReverseNewestIsOldest(kept);
    } else if option == "Username A-Z" {
      SortSpec(UsernameAsc, kept);
    } else if option == "Username Z-A" {
      SortSpec(UsernameDesc, kept);
    }
  }

  // ---------------------------------------------------------------------
  // Access and deletion

  const AdminUsers: seq<string> := ["admin", "administrator"]

  /** `user and user['username'].lower() in ADMIN_USERS` */
  predicate IsAdmin(user: Option<SessionUser>) {
    user.Some? && Lower(user.value.username) in AdminUsers
  }

  /** The allow-list ignores case, admits exactly the names "admin" and
      "administrator", and nobody is an admin without a user. */
  lemma IsAdminSpec(u: SessionUser, v: SessionUser)
    requires Lower(u.username) == Lower(v.username)
    ensures IsAdmin(Some(u)) <==> IsAdmin(Some(v))
    ensures !IsAdmin(None)
    ensures IsAdmin(Some(u)) <==> Lower(u.username) == "admin" || Lower(u.username) == "administrator"
    ensures IsAdmin(Some(u)) ==> |u.username| == 5 || |u.username| == 13
  {
  }

  /** The page passes `require_login()` and the admin check. */
  predicate AdminAccess(s: State)
    reads s
  {
    RequireLogin(s) && IsAdmin(CurrentUser(s))
  }

  /** After a logout nobody has access, and a logged-in user "Admin" has. */
  lemma AdminAccessSpec(s: State)
    ensures s.authenticated == None ==> !AdminAccess(s)
    ensures s.authenticated == Some(true) && s.user.Some? && s.user.value.username == "Admin" ==> AdminAccess(s)
  {
    if s.user.Some? && s.user.value.username == "Admin" {
      assert Lower("Admin") == "admin";
    }
  }

  /** The table after `DELETE FROM users WHERE id = ?`. */
  function RemoveId(users: seq<UserRecord>, id: int): seq<UserRecord> {
    if users == [] then []
    else RemoveId(users[..|users| - 1], id) + (if users[|users| - 1].id == id then [] else [users[|users| - 1]])
  }

  /** Deleting keeps exactly the rows with another id, in their order: the
      rows kept from any front part of the table come before those kept from
      the rest. */
  lemma RemoveIdSpec(users: seq<UserRecord>, id: int)
    ensures forall u :: u in RemoveId(users, id) <==> u in users && u.id != id
    ensures |RemoveId(users, id)| <= |users|
    ensures (forall i :: 0 <= i < |users| ==> users[i].id != id) ==> RemoveId(users, id) == users
    ensures forall k :: 0 <= k <= |users| ==>
              RemoveId(users, id) == RemoveId(users[..k], id) + RemoveId(users[k..], id)
  {
    RemoveIdMembers(users, id);
    RemoveIdLength(users, id);
    if forall i :: 0 <= i < |users| ==> users[i].id != id {
      RemoveIdAbsent(users, id);
    }
    forall k | 0 <= k <= |users|
      ensures RemoveId(users, id) == RemoveId(users[..k], id) + RemoveId(users[k..], id)
    {
      assert users == users[..k] + users[k..];
      RemoveIdAppend(users[..k], users[k..], id);
    }
  }

  /** Deleting from two tables joined is deleting from each, in order. */
  lemma {:induction false} RemoveIdAppend(a: seq<UserRecord>, b: seq<UserRecord>, id: int)
    ensures RemoveId(a + b, id) == RemoveId(a, id) + RemoveId(b, id)
  {
    if b == [] {
      assert a + b == a;
    } else {
      var init, last := b[..|b| - 1], b[|b| - 1];
      RemoveIdAppend(a, init, id);
      assert (a + b)[..|a + b| - 1] == a + init;
      assert (a + b)[|a + b| - 1] == last;
      var tail := if last.id == id then [] else [last];
      assert RemoveId(b, id) == RemoveId(init, id) + tail;
      assert RemoveId(a + b, id) == RemoveId(a + init, id) + tail;
      assert (RemoveId(a, id) + RemoveId(init, id)) + tail == RemoveId(a, id) + (RemoveId(init, id) + tail);
    }
  }

  lemma {:induction false} RemoveIdMembers(users: seq<UserRecord>, id: int)
    ensures forall u :: u in RemoveId(users, id) <==> u in users && u.id != id
  {
    if users != [] {
      var init := users[..|users| - 1];
      var last := users[|users| - 1];
      RemoveIdMembers(init, id);
      assert users == init + [last];
      var kept := if last.id == id then [] else [last];
      assert RemoveId(users, id) == RemoveId(init, id) + kept;
      forall u
        ensures u in RemoveId(users, id) <==> u in users && u.id != id
      {
        assert u in users <==> u in init || u == last;
        assert u in RemoveId(users, id) <==> u in RemoveId(init, id) || u in kept;
      }
    }
  }

  lemma {:induction false} RemoveIdLength(users: seq<UserRecord>, id: int)
    ensures |RemoveId(users, id)| <= |users|
  {
    if users != [] {
      RemoveIdLength(users[..|users| - 1], id);
    }
  }

  lemma {:induction false} RemoveIdAbsent(users: seq<UserRecord>, id: int)
    requires forall i :: 0 <= i < |users| ==> users[i].id != id
    ensures RemoveId(users, id) == users
  {
    if users != [] {
      var init := users[..|users| - 1];
      RemoveIdAbsent(init, id);
      assert users == init + [users[|users| - 1]];
    }
  }

  /** Dropping the last row keeps the table's invariant. */
  lemma InvariantInit(users: seq<UserRecord>, nextId: int)
    requires TableInvariant(users, nextId) && users != []
    ensures TableInvariant(users[..|users| - 1], nextId)
  {
  }

  /** A row whose id, username and email exceed or differ from those of
      every row before it can follow them. */
  lemma InvariantSnoc(r: seq<UserRecord>, last: UserRecord, nextId: int)
    requires TableInvariant(r, nextId)
    requires 1 <= last.id < nextId && IsTokenHex16(last.salt)
    requires forall i :: 0 <= i < |r| ==> r[i].id < last.id && r[i].username != last.username && r[i].email != last.email
    ensures TableInvariant(r + [last], nextId)
  {
  }

  /** Every row left after a deletion from rows that all come before `last`
      (smaller id, other username, other email) still does. */
  lemma RemoveIdBefore(init: seq<UserRecord>, last: UserRecord, id: int)
    requires forall i :: 0 <= i < |init| ==> init[i].id < last.id && init[i].username != last.username && init[i].email != last.email
    ensures forall i :: 0 <= i < |RemoveId(init, id)| ==>
              RemoveId(init, id)[i].id < last.id && RemoveId(init, id)[i].username != last.username &&
              RemoveId(init, id)[i].email != last.email
  {
    RemoveIdSpec(init, id);
    var r := RemoveId(init, id);
    forall i | 0 <= i < |r|
      ensures r[i] in init
    {
    }
  }

  /** Deleting rows keeps the table's invariant. */
  lemma {:induction false} RemoveIdKeepsInvariant(users: seq<UserRecord>, nextId: int, id: int)
    requires TableInvariant(users, nextId)
    ensures TableInvariant(RemoveId(users, id), nextId)
  {
    if users != [] {
      var init := users[..|users| - 1];
      var last := users[|users| - 1];
      InvariantInit(users, nextId);
      RemoveIdKeepsInvariant(init, nextId, id);
      if last.id != id {
        forall i | 0 <= i < |init|
          ensures init[i].id < last.id && init[i].username != last.username && init[i].email != last.email
        {
          assert init[i] == users[i];
        }
        RemoveIdBefore(init, last, id);
        InvariantSnoc(RemoveId(init, id), last, nextId);
      }
    }
  }

  /** Deleting a user frees their username and email: no row has them. */
  lemma DeleteFreesIdentity(users: seq<UserRecord>, nextId: int, k: nat)
    requires TableInvariant(users, nextId) && k < |users|
    ensures var r := RemoveId(users, users[k].id);
            forall i :: 0 <= i < |r| ==> r[i].id != users[k].id &&
                                         r[i].username != users[k].username &&
                                         r[i].email != users[k].email
  {
    var r := RemoveId(users, users[k].id);
    RemoveIdSpec(users, users[k].id);
    forall i | 0 <= i < |r|
      ensures r[i].username != users[k].username && r[i].email != users[k].email
    {
      assert r[i] in users;
      var m :| 0 <= m < |users| && users[m] == r[i];
      assert m != k;
    }
  }

  /** `delete_user(user_id, username)`: delete the row with that id and report
      whether a row was deleted (`rowcount > 0`). The username is unused. */
  method DeleteUser(store: CredentialStore, userId: int, username: string) returns (deleted: bool)
    requires store.Valid()
    modifies store`users
    ensures store.Valid()
    ensures deleted <==> exists i :: 0 <= i < |old(store.users)| && old(store.users)[i].id == userId
    ensures store.users == RemoveId(old(store.users), userId)
  {
    RemoveIdSpec(store.users, userId);
    RemoveIdKeepsInvariant(store.users, store.nextId, userId);
    var before := store.users;
    store.users := RemoveId(store.users, userId);
    deleted := |store.users| < |before|;
    if exists i :: 0 <= i < |before| && before[i].id == userId {
      var i :| 0 <= i < |before| && before[i].id == userId;
      assert before[i] !in store.users;
      assert |store.users| < |before| by {
        if |store.users| == |before| {
          RemoveIdSame(before, userId);
        }
      }
    }
  }

  /** When no row is dropped, the result is the table itself. */
  lemma {:induction false} RemoveIdSame(users: seq<UserRecord>, id: int)
    requires |RemoveId(users, id)| == |users|
    ensures RemoveId(users, id) == users
  {
    if users != [] {
      RemoveIdSpec(users[..|users| - 1], id);
      RemoveIdSame(users[..|users| - 1], id);
      assert users == users[..|users| - 1] + [users[|users| - 1]];
    }
  }
}
