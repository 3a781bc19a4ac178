/** The admin console's user, need and invitation lists and the public needs board:
    status filters, case-insensitive search, slice-based pages, the category colour
    and icon tables, and the local list updates made once a request returns (after a successful reply;
    the need toggle without reading the reply at all). */
module ListViews {
  import opened Seqs
  import opened Text

  /** An account as the admin list shows it; an absent optional field is "". */
  datatype User = User(
    id: string,
    email: string,
    displayName: string,
    onboardingComplete: bool,
    isAdmin: bool,
    invitationId: string,
    invitationType: string)

  datatype Need = Need(id: string, title: string, description: string, category: string, isActive: bool)

  datatype Invitation = Invitation(id: string, email: string)

  /** The status tabs of the user list. */
  datatype UserFilter = AllUsers | Onboarded | PendingOnboarding | Admins | PublicLink | DirectSignup

  const AdminItemsPerPage: nat := 10
  const BoardItemsPerPage: nat := 9
  const PublicInvitation := "public"

  // ---------------------------------------------------------------------------
  // Users

  /** The test each status tab applies; a truthy `invitationId` is a non-empty one. */
  predicate HasStatus(f: UserFilter, u: User) {
    match f
    case AllUsers => true
    case Onboarded => u.onboardingComplete
    case PendingOnboarding => !u.onboardingComplete
    case Admins => u.isAdmin
    case PublicLink => u.invitationId != "" && u.invitationType == PublicInvitation
    case DirectSignup => u.invitationId == ""
  }

  /** The search test, for a query already lower-cased: the lower-cased email or
      display name contains it. */
  predicate MatchesUser(query: string, u: User) {
    Contains(ToLower(u.email), query) || Contains(ToLower(u.displayName), query)
  }

  function StatusTest(f: UserFilter): User -> bool {
    (u: User) => HasStatus(f, u)
  }

  function SearchTest(query: string): User -> bool {
    (u: User) => MatchesUser(query, u)
  }

  function WithStatus(users: seq<User>, f: UserFilter): seq<User> {
    Filter(users, StatusTest(f))
  }

  function UsersMatching(users: seq<User>, query: string): seq<User> {
    Filter(users, SearchTest(query))
  }

  /** The user list as `getFilteredUsers` leaves it: the status filter unless the tab is
      "all", then the search when the query is non-empty. */
  function UserView(users: seq<User>, f: UserFilter, searchQuery: string): seq<User> {
    var byStatus := if f == AllUsers then users else WithStatus(users, f);
    if searchQuery == "" then byStatus else UsersMatching(byStatus, ToLower(searchQuery))
  }

  method FilteredUsers(users: seq<User>, f: UserFilter, searchQuery: string) returns (filtered: seq<User>)
    ensures filtered == UserView(users, f, searchQuery)
    ensures IsSubsequence(filtered, users)
    ensures forall u :: u in filtered <==>
      u in users && HasStatus(f, u) && (searchQuery == "" || MatchesUser(ToLower(searchQuery), u))
    ensures f == AllUsers && searchQuery == "" ==> filtered == users
  {
    filtered := users;
    IsSubsequenceRefl(users);
    if f != AllUsers {
      FilterIsSubsequence(filtered, StatusTest(f));
      filtered := WithStatus(filtered, f);
    }
    if searchQuery != "" {
      var query := ToLower(searchQuery);
      var before := filtered;
      FilterIsSubsequence(before, SearchTest(query));
      filtered := UsersMatching(before, query);
      IsSubsequenceTrans(filtered, before, users);
    }
  }

  // ---------------------------------------------------------------------------
  // Needs

  /** The need search, for a query already lower-cased and trimmed. */
  predicate MatchesNeed(query: string, n: Need) {
    Contains(ToLower(n.title), query) || Contains(ToLower(n.description), query)
    || Contains(ToLower(n.category), query)
  }

  function NeedSearchTest(query: string): Need -> bool {
    (n: Need) => MatchesNeed(query, n)
  }

  function NeedsMatching(needs: seq<Need>, query: string): seq<Need> {
    Filter(needs, NeedSearchTest(query))
  }

  /** The search both need lists apply: nothing for a blank query, otherwise the needs
      matching the lower-cased, trimmed query. */
  function SearchNeeds(needs: seq<Need>, searchQuery: string): seq<Need> {
    if IsBlank(searchQuery) then needs else NeedsMatching(needs, Trim(ToLower(searchQuery)))
  }

  /** The admin need list (`getFilteredNeeds`). */
  lemma AdminNeedsSearch(needs: seq<Need>, searchQuery: string)
    ensures IsSubsequence(SearchNeeds(needs, searchQuery), needs)
    ensures IsBlank(searchQuery) ==> SearchNeeds(needs, searchQuery) == needs
    ensures Trim(searchQuery) == "" ==> SearchNeeds(needs, searchQuery) == needs
    ensures !IsBlank(searchQuery) ==> forall n :: n in SearchNeeds(needs, searchQuery) <==>
      n in needs && MatchesNeed(Trim(ToLower(searchQuery)), n)
  {
    TrimEmptyIffBlank(searchQuery);
    IsSubsequenceRefl(needs);
    FilterIsSubsequence(needs, NeedSearchTest(Trim(ToLower(searchQuery))));
  }

  function CategoryTest(category: string): Need -> bool {
    (n: Need) => n.category == category
  }

  function InCategory(needs: seq<Need>, category: string): seq<Need> {
    Filter(needs, CategoryTest(category))
  }

  /** The needs board list: the selected category (a missing or empty one selects
      nothing), then the search. */
  function BoardNeeds(needs: seq<Need>, selectedCategory: Option<string>, searchQuery: string): seq<Need> {
    var byCategory :=
      if selectedCategory.Some? && selectedCategory.value != "" then InCategory(needs, selectedCategory.value)
      else needs;
    SearchNeeds(byCategory, searchQuery)
  }

  lemma BoardNeedsFilters(needs: seq<Need>, selectedCategory: Option<string>, searchQuery: string)
    ensures IsSubsequence(BoardNeeds(needs, selectedCategory, searchQuery), needs)
    ensures selectedCategory == None && IsBlank(searchQuery) ==>
      BoardNeeds(needs, selectedCategory, searchQuery) == needs
    ensures selectedCategory.Some? && selectedCategory.value != "" ==>
      forall n :: n in BoardNeeds(needs, selectedCategory, searchQuery) ==> n.category == selectedCategory.value
    ensures forall n :: n in BoardNeeds(needs, selectedCategory, searchQuery) <==>
      n in needs
      && (selectedCategory.Some? && selectedCategory.value != "" ==> n.category == selectedCategory.value)
      && (!IsBlank(searchQuery) ==> MatchesNeed(Trim(ToLower(searchQuery)), n))
  {
    var byCategory :=
      if selectedCategory.Some? && selectedCategory.value != "" then InCategory(needs, selectedCategory.value)
      else needs;
    IsSubsequenceRefl(needs);
    if selectedCategory.Some? && selectedCategory.value != "" {
      FilterIsSubsequence(needs, CategoryTest(selectedCategory.value));
    }
    AdminNeedsSearch(byCategory, searchQuery);
    IsSubsequenceTrans(BoardNeeds(needs, selectedCategory, searchQuery), byCategory, needs);
  }

  // ---------------------------------------------------------------------------
  // Pages

  /** Page `page` (counted from 1): `list.slice((page - 1) * perPage, (page - 1) * perPage + perPage)`. */
  function PageOf<T>(list: seq<T>, page: int, perPage: nat): seq<T> {
    var start := (page - 1) * perPage;
    Slice(list, start, start + perPage)
  }

  /** `Math.ceil(length / perPage)`. */
  function TotalPages(length: nat, perPage: nat): nat
    requires perPage > 0
  {
    (length + perPage - 1) / perPage
  }

  /** A page is the contiguous run of at most `perPage` items starting at
      `(page - 1) * perPage`, clipped at the end of the list. */
  lemma PageIsSlice<T>(list: seq<T>, page: int, perPage: nat)
    requires page >= 1
    ensures var start := Min((page - 1) * perPage, |list|);
      PageOf(list, page, perPage) == list[start..Min(start + perPage, |list|)]
    ensures |PageOf(list, page, perPage)| <= perPage
  {
    MulMonotone(0, page - 1, perPage);
  }

  /** Page 0, the value before any page is chosen, is empty. */
  lemma PageZeroEmpty<T>(list: seq<T>, perPage: nat)
    ensures PageOf(list, 0, perPage) == []
  {
  }

  lemma TotalPagesBounds(length: nat, perPage: nat)
    requires perPage > 0
    ensures TotalPages(length, perPage) * perPage >= length
    ensures TotalPages(length, perPage) * perPage < length + perPage
  {
    var t, r := (length + perPage - 1) / perPage, (length + perPage - 1) % perPage;
    assert t * perPage + r == length + perPage - 1;
  }

  /** Page `page` starts inside the list exactly when it is one of the first `t` pages,
      for `t` the least count of pages that holds the list. */
  lemma PageStartsInside(page: int, t: nat, perPage: nat, length: nat)
    requires page >= 1 && perPage > 0
    requires t * perPage >= length && t * perPage < length + perPage
    ensures (page - 1) * perPage < length <==> page <= t
  {
    if page <= t {
      MulMonotone(page - 1, t - 1, perPage);
      assert (t - 1) * perPage == t * perPage - perPage;
    } else {
      MulMonotone(t, page - 1, perPage);
    }
  }

  /** A page is non-empty exactly when it starts inside the list. */
  lemma PageNonEmptyIffStarts<T>(list: seq<T>, page: int, perPage: nat)
    requires page >= 1 && perPage > 0
    ensures PageOf(list, page, perPage) != [] <==> (page - 1) * perPage < |list|
  {
    var start := (page - 1) * perPage;
    MulMonotone(0, page - 1, perPage);
    assert PageOf(list, page, perPage) == Slice(list, start, start + perPage);
    if start < |list| {
      assert |Slice(list, start, start + perPage)| == Min(start + perPage, |list|) - start;
    }
  }

  /** Pages 1..TotalPages are exactly the non-empty pages. */
  lemma PageNonEmptyIff<T>(list: seq<T>, page: int, perPage: nat)
    requires page >= 1 && perPage > 0
    ensures PageOf(list, page, perPage) != [] <==> page <= TotalPages(|list|, perPage)
  {
    TotalPagesBounds(|list|, perPage);
    PageNonEmptyIffStarts(list, page, perPage);
    PageStartsInside(page, TotalPages(|list|, perPage), perPage, |list|);
  }

  /** Pages 1..k laid end to end. */
  function PagesUpTo<T>(list: seq<T>, perPage: nat, k: nat): seq<seq<T>> {
    seq(k, i requires 0 <= i < k => PageOf(list, i + 1, perPage))
  }

  lemma {:induction false} PagesCover<T>(list: seq<T>, perPage: nat, k: nat)
    ensures Flatten(PagesUpTo(list, perPage, k)) == list[..Min(k * perPage, |list|)]
  {
    if k > 0 {
      PagesCover(list, perPage, k - 1);
      var pages := PagesUpTo(list, perPage, k);
      assert pages[..k - 1] == PagesUpTo(list, perPage, k - 1);
      PageIsSlice(list, k, perPage);
      MulMonotone(k - 1, k, perPage);
      assert (k - 1) * perPage + perPage == k * perPage;
      var a, b := Min((k - 1) * perPage, |list|), Min(k * perPage, |list|);
      assert list[..a] + list[a..b] == list[..b];
    }
  }

  /** Reading every page in turn gives back the whole list, each item exactly once. */
  lemma PagesPartitionList<T>(list: seq<T>, perPage: nat)
    requires perPage > 0
    ensures Flatten(PagesUpTo(list, perPage, TotalPages(|list|, perPage))) == list
  {
    TotalPagesBounds(|list|, perPage);
    PagesCover(list, perPage, TotalPages(|list|, perPage));
  }

  /** `getPaginatedUsers`, `getPaginatedNeeds` and `getPaginatedInvitations` pages of ten. */
  lemma AdminPages(users: seq<User>, f: UserFilter, userQuery: string, needs: seq<Need>, needQuery: string,
                   invitations: seq<Invitation>, page: int)
    requires page >= 1
    ensures |PageOf(UserView(users, f, userQuery), page, AdminItemsPerPage)| <= 10
    ensures |PageOf(SearchNeeds(needs, needQuery), page, AdminItemsPerPage)| <= 10
    ensures PageOf(invitations, page, AdminItemsPerPage) ==
      invitations[Min(10 * (page - 1), |invitations|)..Min(10 * (page - 1) + 10, |invitations|)]
  {
    PageIsSlice(UserView(users, f, userQuery), page, AdminItemsPerPage);
    PageIsSlice(SearchNeeds(needs, needQuery), page, AdminItemsPerPage);
    PageIsSlice(invitations, page, AdminItemsPerPage);
  }

  /** The needs board shows nine needs a page. */
  lemma BoardPages(needs: seq<Need>, selectedCategory: Option<string>, searchQuery: string, page: int)
    requires page >= 1
    ensures var shown := BoardNeeds(needs, selectedCategory, searchQuery);
      |PageOf(shown, page, BoardItemsPerPage)| <= 9
      && (PageOf(shown, page, BoardItemsPerPage) != [] <==> page <= TotalPages(|shown|, BoardItemsPerPage))
      && TotalPages(|shown|, BoardItemsPerPage) * 9 >= |shown|
  {
    var shown := BoardNeeds(needs, selectedCategory, searchQuery);
    PageIsSlice(shown, page, BoardItemsPerPage);
    PageNonEmptyIff(shown, page, BoardItemsPerPage);
    TotalPagesBounds(|shown|, BoardItemsPerPage);
  }

  // ---------------------------------------------------------------------------
  // Category colour and icon

  const Navy := "bg-[#00245D]"
  const Sky := "bg-[#99D6EA]"

  const CategoryColors: map<string, string> := map[
    "Sports & Coaching" := Navy,
    "Youth Development" := Sky,
    "Event Planning" := Navy,
    "Facilities & Equipment" := Sky,
    "Education" := Sky,
    "Healthcare" := Navy,
    "Technology" := Navy,
    "Media" := Navy,
    "Marketing" := Sky,
    "Finance" := Sky,
    "Legal" := Navy,
    "Trades" := Sky,
    "Real Estate" := Navy,
    "Consulting" := Navy,
    "Arts & Entertainment" := Sky,
    "Non-Profit" := Navy,
    "Government" := Sky
  ]

  const SkyCategories: set<string> := {
    "Youth Development", "Facilities & Equipment", "Education", "Marketing", "Finance",
    "Trades", "Arts & Entertainment", "Government"
  }

  /** `getCategoryColor`: the table entry, or navy for a category the table lacks. */
  function CategoryColor(category: string): (color: string)
    ensures color == Sky <==> category in SkyCategories
    ensures color == Navy <==> category !in SkyCategories
    ensures category !in CategoryColors ==> color == Navy
  {
    if category in CategoryColors then CategoryColors[category] else Navy
  }

  const DefaultIcon := "\U{1F4CB}"

  const CategoryIcons: map<string, string> := map[
    "Sports & Coaching" := "\U{26BD}",
    "Youth Development" := "\U{1F331}",
    "Event Planning" := "\U{1F389}",
    "Facilities & Equipment" := "\U{1F3DF}\U{FE0F}",
    "Education" := "\U{1F4DA}",
    "Healthcare" := "\U{1F3E5}",
    "Technology" := "\U{1F4BB}",
    "Media" := "\U{1F4FA}",
    "Marketing" := "\U{1F4E2}",
    "Finance" := "\U{1F4B0}",
    "Legal" := "\U{2696}\U{FE0F}",
    "Trades" := "\U{1F527}",
    "Real Estate" := "\U{1F3E0}",
    "Consulting" := "\U{1F4BC}",
    "Arts & Entertainment" := "\U{1F3A8}",
    "Non-Profit" := "\U{2764}\U{FE0F}",
    "Government" := "\U{1F3DB}\U{FE0F}",
    "Other" := DefaultIcon
  ]

  /** `CATEGORY_ICONS[category] || '📋'`. */
  function CategoryIcon(category: string): (icon: string)
    ensures icon != ""
    ensures category !in CategoryIcons ==> icon == DefaultIcon
    ensures category in CategoryIcons ==> icon == CategoryIcons[category]
  {
    if category in CategoryIcons && CategoryIcons[category] != "" then CategoryIcons[category] else DefaultIcon
  }

  /** Every category with a colour has its own icon; "Other" shares the fallback icon and
      gets the fallback colour. */
  lemma CategoryTablesAgree()
    ensures CategoryColors.Keys + {"Other"} == CategoryIcons.Keys
    ensures CategoryColor("Other") == Navy && CategoryIcon("Other") == DefaultIcon
    ensures forall c :: c in CategoryColors ==> CategoryIcon(c) != DefaultIcon
  {
    CategoryKeysAgree();
    ColouredCategoriesHaveIcons();
  }

  lemma CategoryKeysAgree()
    ensures CategoryColors.Keys + {"Other"} == CategoryIcons.Keys
  {
  }

  lemma ColouredCategoriesHaveIcons()
    ensures forall c :: c in CategoryColors ==> c in CategoryIcons && CategoryIcons[c] != DefaultIcon
  {
  }

  // ---------------------------------------------------------------------------
  // Local list updates once a request returns (toggle: without checking the reply)

  /** `needs.map(n => n.id === needId ? {...n, isActive: !currentStatus} : n)`. */
  function ToggleNeedActive(needs: seq<Need>, needId: string, currentStatus: bool): (r: seq<Need>)
    ensures |r| == |needs|
    ensures forall i :: 0 <= i < |needs| && needs[i].id != needId ==> r[i] == needs[i]
    ensures forall i :: 0 <= i < |needs| && needs[i].id == needId ==>
      r[i].isActive == !currentStatus && r[i].(isActive := needs[i].isActive) == needs[i]
  {
    seq(|needs|, i requires 0 <= i < |needs| =>
      if needs[i].id == needId then needs[i].(isActive := !currentStatus) else needs[i])
  }

  /** Toggling back with the new status restores the list. */
  lemma ToggleNeedActiveTwice(needs: seq<Need>, needId: string, currentStatus: bool)
    requires forall i :: 0 <= i < |needs| && needs[i].id == needId ==> needs[i].isActive == currentStatus
    ensures ToggleNeedActive(ToggleNeedActive(needs, needId, currentStatus), needId, !currentStatus) == needs
  {
  }

  /** `users.map(u => u.id === targetUserId ? {...u, isAdmin: !currentStatus} : u)`. */
  function ToggleAdmin(users: seq<User>, targetUserId: string, currentStatus: bool): (r: seq<User>)
    ensures |r| == |users|
    ensures forall i :: 0 <= i < |users| && users[i].id != targetUserId ==> r[i] == users[i]
    ensures forall i :: 0 <= i < |users| && users[i].id == targetUserId ==>
      r[i].isAdmin == !currentStatus && r[i].(isAdmin := users[i].isAdmin) == users[i]
  {
    seq(|users|, i requires 0 <= i < |users| =>
      if users[i].id == targetUserId then users[i].(isAdmin := !currentStatus) else users[i])
  }

  lemma ToggleAdminTwice(users: seq<User>, targetUserId: string, currentStatus: bool)
    requires forall i :: 0 <= i < |users| && users[i].id == targetUserId ==> users[i].isAdmin == currentStatus
    ensures ToggleAdmin(ToggleAdmin(users, targetUserId, currentStatus), targetUserId, !currentStatus) == users
  {
  }

  /** The fields the edit dialog changes. */
  datatype NeedEdit = NeedEdit(title: string, description: string, category: string)

  /** `needs.map(n => n.id === editingNeed.id ? {...n, ...editNeedData} : n)`. */
  function UpdateNeed(needs: seq<Need>, needId: string, edit: NeedEdit): (r: seq<Need>)
    ensures |r| == |needs|
    ensures forall i :: 0 <= i < |needs| && needs[i].id != needId ==> r[i] == needs[i]
    ensures forall i :: 0 <= i < |needs| && needs[i].id == needId ==>
      r[i].id == needId && r[i].isActive == needs[i].isActive
      && r[i].title == edit.title && r[i].description == edit.description && r[i].category == edit.category
  {
    seq(|needs|, i requires 0 <= i < |needs| =>
      if needs[i].id == needId
      then needs[i].(title := edit.title, description := edit.description, category := edit.category)
      else needs[i])
  }

  /** Saving the same edit again changes nothing more. */
  lemma UpdateNeedIdempotent(needs: seq<Need>, needId: string, edit: NeedEdit)
    ensures UpdateNeed(UpdateNeed(needs, needId, edit), needId, edit) == UpdateNeed(needs, needId, edit)
  {
  }

  /** `needs.filter(n => n.id !== needId)`. */
  function OtherNeed(needId: string): Need -> bool {
    (n: Need) => n.id != needId
  }

  function RemoveNeed(needs: seq<Need>, needId: string): seq<Need> {
    Filter(needs, OtherNeed(needId))
  }

  /** `users.filter(u => u.id !== userId)`. */
  function OtherUser(userId: string): User -> bool {
    (u: User) => u.id != userId
  }

  function RemoveUser(users: seq<User>, userId: string): seq<User> {
    Filter(users, OtherUser(userId))
  }

  /** `invitations.filter(inv => inv.id !== invitationId)`. */
  function OtherInvitation(invitationId: string): Invitation -> bool {
    (v: Invitation) => v.id != invitationId
  }

  function RemoveInvitation(invitations: seq<Invitation>, invitationId: string): seq<Invitation> {
    Filter(invitations, OtherInvitation(invitationId))
  }

  /** Deleting by id drops exactly the entries with that id and keeps the rest in order. */
  lemma RemoveNeedOnlyMatching(needs: seq<Need>, needId: string)
    ensures IsSubsequence(RemoveNeed(needs, needId), needs)
    ensures forall n :: n in RemoveNeed(needs, needId) <==> n in needs && n.id != needId
    ensures (forall i :: 0 <= i < |needs| ==> needs[i].id != needId) ==> RemoveNeed(needs, needId) == needs
  {
    FilterIsSubsequence(needs, OtherNeed(needId));
    if forall i :: 0 <= i < |needs| ==> needs[i].id != needId {
      FilterKeepsAll(needs, OtherNeed(needId));
    }
  }

  lemma RemoveUserOnlyMatching(users: seq<User>, userId: string)
    ensures IsSubsequence(RemoveUser(users, userId), users)
    ensures forall u :: u in RemoveUser(users, userId) <==> u in users && u.id != userId
    ensures (forall i :: 0 <= i < |users| ==> users[i].id != userId) ==> RemoveUser(users, userId) == users
  {
    FilterIsSubsequence(users, OtherUser(userId));
    if forall i :: 0 <= i < |users| ==> users[i].id != userId {
      FilterKeepsAll(users, OtherUser(userId));
    }
  }

  lemma RemoveInvitationOnlyMatching(invitations: seq<Invitation>, invitationId: string)
    ensures IsSubsequence(RemoveInvitation(invitations, invitationId), invitations)
    ensures forall v :: v in RemoveInvitation(invitations, invitationId) <==> v in invitations && v.id != invitationId
    ensures (forall i :: 0 <= i < |invitations| ==> invitations[i].id != invitationId) ==>
      RemoveInvitation(invitations, invitationId) == invitations
  {
    FilterIsSubsequence(invitations, OtherInvitation(invitationId));
    if forall i :: 0 <= i < |invitations| ==> invitations[i].id != invitationId {
      FilterKeepsAll(invitations, OtherInvitation(invitationId));
    }
  }
}
