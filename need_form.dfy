/** The "create need" form shared by the admin page and the admin need modal: the
    description serialiser `formatNeedDescription`, the dynamic scope / requirement
    lists, the submission guards with the form reset, and the settings validators. */
module NeedForm {
  import opened Seqs
  import opened Text

  /** The structured fields of the form (absent text is the empty string). */
  datatype NeedDraft = NeedDraft(
    title: string,
    category: string,
    location: string,
    timeline: string,
    overview: string,
    scopeItems: seq<string>,
    requirements: seq<string>,
    additionalInfo: string)

  const DefaultCategory := "Sports & Coaching"

  /** The state the form opens in and returns to after a successful create. */
  const InitialDraft := NeedDraft("", DefaultCategory, "", "", "", [""], [""], "")

  // ---------------------------------------------------------------------------
  // Description serialiser

  /** Separator between list items: space, middle dot, space. */
  const ItemSeparator := " \U{00B7} "

  datatype Section = Location | Timeline | Overview | Scope | Requirements | AdditionalInfo

  /** Position of a section in the fixed emission order. */
  function Rank(k: Section): nat {
    match k
    case Location => 0
    case Timeline => 1
    case Overview => 2
    case Scope => 3
    case Requirements => 4
    case AdditionalInfo => 5
  }

  const SectionCount: nat := 6

  function KindAt(r: nat): (k: Section)
    requires r < SectionCount
    ensures Rank(k) == r
  {
    if r == 0 then Location
    else if r == 1 then Timeline
    else if r == 2 then Overview
    else if r == 3 then Scope
    else if r == 4 then Requirements
    else AdditionalInfo
  }

  function Heading(k: Section): string {
    match k
    case Location => "Project Location: "
    case Timeline => "Timeline: "
    case Overview => "\U{2014}\U{2014} Project Overview "
    case Scope => "\U{2014}\U{2014} Scope of Work "
    case Requirements => "\U{2014}\U{2014} Requirements "
    case AdditionalInfo => "\U{2014}\U{2014} Additional Information "
  }

  /** The truthiness of `s.trim()`. */
  predicate NotBlank(s: string) {
    !IsBlank(s)
  }

  /** `items.filter(s => s.trim())`: the items that are not blank, in order. */
  function ValidItems(items: seq<string>): (r: seq<string>)
    ensures |r| <= |items|
    ensures forall k :: 0 <= k < |r| ==> NotBlank(r[k])
    ensures forall x :: x in r <==> x in items && NotBlank(x)
  {
    if items == [] then []
    else
      assert items == [items[0]] + items[1..];
      (if NotBlank(items[0]) then [items[0]] else []) + ValidItems(items[1..])
  }

  /** The number of blank items. */
  function BlankCount(items: seq<string>): nat {
    if items == [] then 0 else (if IsBlank(items[0]) then 1 else 0) + BlankCount(items[1..])
  }

  /** Every non-blank item survives, duplicates included: the valid items are as many as
      the items that are not blank. */
  lemma {:induction false} ValidItemsCount(items: seq<string>)
    ensures |ValidItems(items)| == |items| - BlankCount(items)
  {
    if items != [] {
      ValidItemsCount(items[1..]);
    }
  }

  /** Together: the valid items are exactly the non-blank items, in their order, each
      occurrence kept. Position k of the result is the k-th non-blank item. */
  lemma {:induction false} ValidItemsAreTheNonBlank(items: seq<string>, i: nat)
    requires i < |items| && NotBlank(items[i])
    ensures BlankCount(items[..i]) <= i
    ensures i - BlankCount(items[..i]) < |ValidItems(items)|
    ensures ValidItems(items)[i - BlankCount(items[..i])] == items[i]
    decreases i
  {
    BlankCountBound(items[..i]);
    if i > 0 {
      var rest := items[1..];
      ValidItemsAreTheNonBlank(rest, i - 1);
      assert items[..i] == [items[0]] + rest[..i - 1];
      assert BlankCount(items[..i]) == (if IsBlank(items[0]) then 1 else 0) + BlankCount(rest[..i - 1]);
      var j := i - 1 - BlankCount(rest[..i - 1]);
      if NotBlank(items[0]) {
        assert ValidItems(items) == [items[0]] + ValidItems(rest);
        assert ValidItems(items)[j + 1] == ValidItems(rest)[j];
      } else {
        assert ValidItems(items) == ValidItems(rest);
      }
    }
  }

  lemma {:induction false} BlankCountBound(items: seq<string>)
    ensures BlankCount(items) <= |items|
  {
    if items != [] {
      BlankCountBound(items[1..]);
    }
  }

  /** The valid items are an order-preserving selection of the items. */
  lemma {:induction false} ValidItemsSubsequence(items: seq<string>)
    ensures IsSubsequence(ValidItems(items), items)
  {
    if items != [] {
      ValidItemsSubsequence(items[1..]);
      var r := ValidItems(items);
      if NotBlank(items[0]) {
        assert r == [items[0]] + ValidItems(items[1..]);
        assert r[0] == items[0] && r[1..] == ValidItems(items[1..]);
      } else {
        assert r == ValidItems(items[1..]);
      }
    }
  }

  /** No valid item is left exactly when every item is blank. */
  lemma {:induction false} ValidItemsEmptyIff(items: seq<string>)
    ensures ValidItems(items) == [] <==> forall k :: 0 <= k < |items| ==> IsBlank(items[k])
  {
    if items != [] {
      ValidItemsEmptyIff(items[1..]);
      assert forall k :: 1 <= k < |items| ==> items[k] == items[1..][k - 1];
    }
  }

  /** Appending a blank item leaves the valid items unchanged. */
  lemma {:induction false} ValidItemsAppendBlank(items: seq<string>, blank: string)
    requires IsBlank(blank)
    ensures ValidItems(items + [blank]) == ValidItems(items)
  {
    if items == [] {
      assert ValidItems([blank]) == [] + ValidItems([]);
    } else {
      assert (items + [blank])[1..] == items[1..] + [blank];
      ValidItemsAppendBlank(items[1..], blank);
    }
  }

  /** `items.map((item, i) => `${i + 1}. ${item}`)`. */
  function Numbered(items: seq<string>): (r: seq<string>)
    ensures |r| == |items|
  {
    seq(|items|, i requires 0 <= i < |items| => NatToString(i + 1) + ". " + items[i])
  }

  /** The text after a section's heading. */
  function Body(d: NeedDraft, k: Section): string {
    match k
    case Location => d.location
    case Timeline => d.timeline
    case Overview => d.overview
    case Scope => Join(Numbered(ValidItems(d.scopeItems)), ItemSeparator)
    case Requirements => Join(ValidItems(d.requirements), ItemSeparator)
    case AdditionalInfo => d.additionalInfo
  }

  /** A section is emitted when its field is truthy, or its valid-item list non-empty. */
  predicate Present(d: NeedDraft, k: Section) {
    match k
    case Location => d.location != ""
    case Timeline => d.timeline != ""
    case Overview => d.overview != ""
    case Scope => |ValidItems(d.scopeItems)| > 0
    case Requirements => |ValidItems(d.requirements)| > 0
    case AdditionalInfo => d.additionalInfo != ""
  }

  function Render(d: NeedDraft, k: Section): string {
    Heading(k) + Body(d, k)
  }

  /** The present sections among the first `n` of the order, in order. */
  function KindsUpTo(d: NeedDraft, n: nat): seq<Section>
    requires n <= SectionCount
  {
    if n == 0 then []
    else KindsUpTo(d, n - 1) + (if Present(d, KindAt(n - 1)) then [KindAt(n - 1)] else [])
  }

  /** The `parts` array after the pushes for the first `n` sections. */
  function PartsUpTo(d: NeedDraft, n: nat): seq<string>
    requires n <= SectionCount
  {
    if n == 0 then []
    else PartsUpTo(d, n - 1) + (if Present(d, KindAt(n - 1)) then [Render(d, KindAt(n - 1))] else [])
  }

  function PresentKinds(d: NeedDraft): seq<Section> {
    KindsUpTo(d, SectionCount)
  }

  function Sections(d: NeedDraft): seq<string> {
    PartsUpTo(d, SectionCount)
  }

  /** The description string: the parts joined by single spaces. */
  function Description(d: NeedDraft): string {
    Join(Sections(d), " ")
  }

  /** The emitted kinds are exactly the present ones below `n`, in strictly increasing rank. */
  lemma {:induction false} KindsOrdered(d: NeedDraft, n: nat)
    requires n <= SectionCount
    ensures forall k :: k in KindsUpTo(d, n) <==> Present(d, k) && Rank(k) < n
    ensures forall i, j :: 0 <= i < j < |KindsUpTo(d, n)| ==>
      Rank(KindsUpTo(d, n)[i]) < Rank(KindsUpTo(d, n)[j])
  {
    if n > 0 {
      KindsOrdered(d, n - 1);
      var init := KindsUpTo(d, n - 1);
      var last := KindAt(n - 1);
      forall k ensures Rank(k) == n - 1 ==> k == last {
      }
      if Present(d, last) {
        assert KindsUpTo(d, n) == init + [last];
        forall i, j | 0 <= i < j < |KindsUpTo(d, n)|
          ensures Rank(KindsUpTo(d, n)[i]) < Rank(KindsUpTo(d, n)[j])
        {
          assert KindsUpTo(d, n)[i] == init[i] && init[i] in init;
          if j < |init| {
            assert KindsUpTo(d, n)[j] == init[j];
          }
        }
      } else {
        assert KindsUpTo(d, n) == init;
      }
    }
  }

  /** Part i is the rendering of the i-th emitted kind. */
  lemma {:induction false} PartsRenderKinds(d: NeedDraft, n: nat)
    requires n <= SectionCount
    ensures |PartsUpTo(d, n)| == |KindsUpTo(d, n)|
    ensures forall i :: 0 <= i < |PartsUpTo(d, n)| ==> PartsUpTo(d, n)[i] == Render(d, KindsUpTo(d, n)[i])
  {
    if n > 0 {
      PartsRenderKinds(d, n - 1);
    }
  }

  /** `formatNeedDescription`: pushes each present section onto `parts`, then joins. */
  method FormatNeedDescription(d: NeedDraft) returns (description: string)
    ensures description == Description(d)
  {
    var parts: seq<string> := [];
    if d.location != "" {
      parts := parts + [Heading(Location) + d.location];
    }
    assert parts == PartsUpTo(d, 1);
    if d.timeline != "" {
      parts := parts + [Heading(Timeline) + d.timeline];
    }
    assert parts == PartsUpTo(d, 2);
    if d.overview != "" {
      parts := parts + [Heading(Overview) + d.overview];
    }
    assert parts == PartsUpTo(d, 3);
    var validScopes := ValidItems(d.scopeItems);
    if |validScopes| > 0 {
      parts := parts + [Heading(Scope) + Join(Numbered(validScopes), ItemSeparator)];
    }
    assert parts == PartsUpTo(d, 4);
    var validReqs := ValidItems(d.requirements);
    if |validReqs| > 0 {
      parts := parts + [Heading(Requirements) + Join(validReqs, ItemSeparator)];
    }
    assert parts == PartsUpTo(d, 5);
    if d.additionalInfo != "" {
      parts := parts + [Heading(AdditionalInfo) + d.additionalInfo];
    }
    assert parts == PartsUpTo(d, 6);
    description := Join(parts, " ");
  }

  /** Every part is non-empty: it starts with its heading. */
  lemma PartsNonEmpty(d: NeedDraft)
    ensures forall i :: 0 <= i < |Sections(d)| ==> Sections(d)[i] != ""
  {
    PartsRenderKinds(d, SectionCount);
    forall i | 0 <= i < |Sections(d)| ensures Sections(d)[i] != "" {
      assert |Heading(PresentKinds(d)[i])| > 0;
    }
  }

  /** There are no parts exactly when no section is present. */
  lemma NoPartsIff(d: NeedDraft)
    ensures Sections(d) == [] <==>
      !Present(d, Location) && !Present(d, Timeline) && !Present(d, Overview)
      && !Present(d, Scope) && !Present(d, Requirements) && !Present(d, AdditionalInfo)
  {
    var ks := PresentKinds(d);
    KindsOrdered(d, SectionCount);
    PartsRenderKinds(d, SectionCount);
    if ks != [] {
      assert ks[0] in ks;
    }
  }

  /** The description is empty exactly when no section is present: every field empty and
      every scope item and requirement blank. */
  lemma DescriptionEmptyIff(d: NeedDraft)
    ensures Description(d) == "" <==>
      d.location == "" && d.timeline == "" && d.overview == "" && d.additionalInfo == ""
      && (forall k :: 0 <= k < |d.scopeItems| ==> IsBlank(d.scopeItems[k]))
      && (forall k :: 0 <= k < |d.requirements| ==> IsBlank(d.requirements[k]))
  {
    PartsNonEmpty(d);
    JoinEmptyIff(Sections(d), " ");
    NoPartsIff(d);
    ValidItemsEmptyIff(d.scopeItems);
    ValidItemsEmptyIff(d.requirements);
  }

  /** Fixed order: the parts are the renderings of the present sections, ranked strictly
      increasingly, and each part starts with its own section's heading. */
  lemma SectionsInFixedOrder(d: NeedDraft)
    ensures |Sections(d)| == |PresentKinds(d)|
    ensures forall i :: 0 <= i < |Sections(d)| ==> Heading(PresentKinds(d)[i]) <= Sections(d)[i]
    ensures forall i, j :: 0 <= i < j < |Sections(d)| ==> Rank(PresentKinds(d)[i]) < Rank(PresentKinds(d)[j])
    ensures forall k :: k in PresentKinds(d) <==> Present(d, k)
  {
    KindsOrdered(d, SectionCount);
    PartsRenderKinds(d, SectionCount);
  }

  /** The longest run of decimal digits at the start of `s`. */
  function DigitPrefix(s: string): (r: string)
    ensures r <= s
    ensures forall k :: 0 <= k < |r| ==> IsDigit(r[k])
    ensures |r| < |s| ==> !IsDigit(s[|r|])
  {
    if s != [] && IsDigit(s[0]) then [s[0]] + DigitPrefix(s[1..]) else []
  }

  lemma {:induction false} DigitPrefixOf(digits: string, rest: string)
    requires forall k :: 0 <= k < |digits| ==> IsDigit(digits[k])
    requires rest != [] && !IsDigit(rest[0])
    ensures DigitPrefix(digits + rest) == digits
  {
    if digits != [] {
      assert (digits + rest)[1..] == digits[1..] + rest;
      DigitPrefixOf(digits[1..], rest);
    }
  }

  /** The number a numbered scope entry starts with. */
  function EntryNumber(entry: string): nat {
    DigitsValue(DigitPrefix(entry))
  }

  /** Reading the entries back: entry i carries the number i + 1 followed by ". " and the
      item itself, so the numbers run 1..k without gaps. */
  lemma NumberingIsConsecutive(items: seq<string>)
    ensures forall i :: 0 <= i < |items| ==>
      EntryNumber(Numbered(items)[i]) == i + 1
      && Numbered(items)[i][|DigitPrefix(Numbered(items)[i])|..] == ". " + items[i]
  {
    forall i | 0 <= i < |items|
      ensures EntryNumber(Numbered(items)[i]) == i + 1
      ensures Numbered(items)[i][|DigitPrefix(Numbered(items)[i])|..] == ". " + items[i]
    {
      var n := NatToString(i + 1);
      assert Numbered(items)[i] == n + (". " + items[i]);
      DigitPrefixOf(n, ". " + items[i]);
      NatToStringRoundTrip(i + 1);
    }
  }

  /** Drafts that agree on every section render the same parts. */
  lemma {:induction false} SameSections(d: NeedDraft, e: NeedDraft, n: nat)
    requires n <= SectionCount
    requires forall k :: Present(d, k) == Present(e, k) && Body(d, k) == Body(e, k)
    ensures PartsUpTo(d, n) == PartsUpTo(e, n)
  {
    if n > 0 {
      SameSections(d, e, n - 1);
      var k := KindAt(n - 1);
      assert Present(d, k) == Present(e, k) && Render(d, k) == Render(e, k);
    }
  }

  /** Drafts with the same fields and the same valid items describe the same thing. */
  lemma SameValidItems(d: NeedDraft, e: NeedDraft)
    requires d.(scopeItems := e.scopeItems, requirements := e.requirements) == e
    requires ValidItems(d.scopeItems) == ValidItems(e.scopeItems)
    requires ValidItems(d.requirements) == ValidItems(e.requirements)
    ensures Description(d) == Description(e)
  {
    forall k: Section ensures Present(d, k) == Present(e, k) && Body(d, k) == Body(e, k) {
    }
    SameSections(d, e, SectionCount);
  }

  /** A blank scope item or requirement appended to a list does not show in the description. */
  lemma BlankItemInvisible(d: NeedDraft, blank: string)
    requires IsBlank(blank)
    ensures Description(d.(scopeItems := d.scopeItems + [blank])) == Description(d)
    ensures Description(d.(requirements := d.requirements + [blank])) == Description(d)
  {
    ValidItemsAppendBlank(d.scopeItems, blank);
    ValidItemsAppendBlank(d.requirements, blank);
    SameValidItems(d.(scopeItems := d.scopeItems + [blank]), d);
    SameValidItems(d.(requirements := d.requirements + [blank]), d);
  }

  /** The form as it opens (and is reset to) describes nothing. */
  lemma InitialDraftDescribesNothing()
    ensures Description(InitialDraft) == ""
  {
    assert IsBlank("");
    DescriptionEmptyIff(InitialDraft);
  }

  // ---------------------------------------------------------------------------
  // Dynamic item lists (scope of work, requirements)

  /** The "+ Add Item" button: one empty item at the end. */
  function AddItem(items: seq<string>): (r: seq<string>)
    ensures |r| == |items| + 1 && r[..|items|] == items && r[|items|] == ""
  {
    items + [""]
  }

  /** Typing into input `index`: the list is copied and one slot reassigned. */
  method EditItem(items: seq<string>, index: nat, value: string) returns (updated: seq<string>)
    requires index < |items|
    ensures |updated| == |items|
    ensures updated[index] == value
    ensures forall j :: 0 <= j < |items| && j != index ==> updated[j] == items[j]
  {
    var copy := new string[|items|](j requires 0 <= j < |items| => items[j]);
    copy[index] := value;
    updated := copy[..];
  }

  /** The remove button, `items.filter((_, i) => i !== index)`. */
  function RemoveItem(items: seq<string>, index: nat): (r: seq<string>)
    requires index < |items|
    ensures |r| == |items| - 1
    ensures forall j :: 0 <= j < index ==> r[j] == items[j]
    ensures forall j :: index <= j < |r| ==> r[j] == items[j + 1]
  {
    items[..index] + items[index + 1..]
  }

  /** The remove button is rendered only while the list has more than one item. */
  predicate RemoveOffered(items: seq<string>) {
    |items| > 1
  }

  /** A user action on one list; actions on controls that are not rendered do nothing. */
  datatype ListEdit = Add | Edit(index: nat, value: string) | Remove(index: nat)

  function ApplyEdit(items: seq<string>, e: ListEdit): seq<string> {
    match e
    case Add => AddItem(items)
    case Edit(i, v) => if i < |items| then items[i := v] else items
    case Remove(i) => if RemoveOffered(items) && i < |items| then RemoveItem(items, i) else items
  }

  function ApplyEdits(items: seq<string>, es: seq<ListEdit>): seq<string>
    decreases |es|
  {
    if es == [] then items else ApplyEdits(ApplyEdit(items, es[0]), es[1..])
  }

  /** Starting from a non-empty list (the form starts with one empty item), no sequence of
      adds, edits and removals empties it. */
  lemma {:induction false} ListNeverEmpty(items: seq<string>, es: seq<ListEdit>)
    requires |items| >= 1
    ensures |ApplyEdits(items, es)| >= 1
    decreases |es|
  {
    if es != [] {
      ListNeverEmpty(ApplyEdit(items, es[0]), es[1..]);
    }
  }

  // ---------------------------------------------------------------------------
  // Submission

  /** Which copy of the form: the admin page demands an overview, the modal does not. */
  datatype FormHost = AdminPage | AdminModal

  predicate CanSubmit(host: FormHost, signedIn: bool, d: NeedDraft) {
    match host
    case AdminPage => signedIn && d.title != "" && d.overview != ""
    case AdminModal => signedIn && d.title != ""
  }

  /** The body POSTed to the needs endpoint. */
  datatype NeedRequest = NeedRequest(title: string, description: string, category: string, userId: string)

  /** What the endpoint answers: `{success: true}`, `{success: false, error}`, or a throw. */
  datatype ServerReply = Created | Refused(error: string) | Unreachable

  datatype SubmitResult = SubmitResult(request: Option<NeedRequest>, draft: NeedDraft, message: string)

  const CreatedMessage := "Need created successfully!"
  const UnreachableMessage := "Failed to create need"

  /** `handleCreateNeed`: when the guard fails, return before anything is set, so the draft
      and the status message `prev` already on screen stay; otherwise clear the message,
      send the request and, on success, reset the form to its initial state. */
  function CreateNeed(host: FormHost, uid: Option<string>, d: NeedDraft, prev: string, reply: ServerReply): (r: SubmitResult)
    ensures r.request.Some? <==> CanSubmit(host, uid.Some?, d)
    ensures r.request.Some? ==>
      r.request.value == NeedRequest(d.title, Description(d), d.category, uid.value)
    ensures r.request.None? ==> r.draft == d && r.message == prev
    ensures r.request.Some? && reply == Created ==> r.draft == InitialDraft && r.message == CreatedMessage
    ensures r.request.Some? && reply != Created ==> r.draft == d
    ensures r.request.Some? && reply.Refused? ==> r.message == "Error: " + reply.error
    ensures r.request.Some? && reply == Unreachable ==> r.message == UnreachableMessage
  {
    if !CanSubmit(host, uid.Some?, d) then SubmitResult(None, d, prev)
    else
      var request := NeedRequest(d.title, Description(d), d.category, uid.value);
      match reply
      case Created => SubmitResult(Some(request), InitialDraft, CreatedMessage)
      case Refused(error) => SubmitResult(Some(request), d, "Error: " + error)
      case Unreachable => SubmitResult(Some(request), d, UnreachableMessage)
  }

  /** The guard inside the modal's `handleCreateNeed` is strictly weaker than the page's:
      it accepts every draft the page accepts, and also a titled draft without an overview.
      (The modal's overview field is also marked `required`, which the browser checks before
      the handler runs; that check is not part of this model.) */
  lemma ModalGuardWeaker(d: NeedDraft)
    ensures CanSubmit(AdminPage, true, d) ==> CanSubmit(AdminModal, true, d)
    ensures d.title != "" && d.overview == "" ==>
      CanSubmit(AdminModal, true, d) && !CanSubmit(AdminPage, true, d)
  {
  }

  /** After a successful create the form is back to one empty item per list, the default
      category and an empty description, ready for the next need. */
  lemma ResetAfterSuccess(host: FormHost, uid: string, d: NeedDraft, prev: string)
    requires CanSubmit(host, true, d)
    ensures var r := CreateNeed(host, Some(uid), d, prev, Created);
      r.draft.scopeItems == [""] && r.draft.requirements == [""]
      && r.draft.category == DefaultCategory && r.draft.title == ""
      && Description(r.draft) == ""
  {
    InitialDraftDescribesNothing();
  }

  // ---------------------------------------------------------------------------
  // Settings validators

  const PasswordMismatch := "Error: Passwords do not match"
  const PasswordTooShort := "Error: Password must be at least 6 characters"
  const MinPasswordLength := 6

  /** The checks of `handleChangePassword`, in order; `None` lets the change go ahead. */
  function PasswordError(newPassword: string, confirmation: string): (r: Option<string>)
    ensures r.None? <==> newPassword == confirmation && |newPassword| >= MinPasswordLength
    ensures newPassword != confirmation ==> r == Some(PasswordMismatch)
    ensures newPassword == confirmation && |newPassword| < MinPasswordLength ==> r == Some(PasswordTooShort)
  {
    if newPassword != confirmation then Some(PasswordMismatch)
    else if |newPassword| < MinPasswordLength then Some(PasswordTooShort)
    else None
  }

  const EmailMismatch := "Error: Emails do not match"
  const EmailInvalid := "Error: Please enter a valid email address"
  const EmailUnchanged := "Error: New email is the same as current email"

  lemma ContainsChar(s: string, c: char)
    ensures Contains(s, [c]) <==> c in s
  {
    ContainsIffOccurs(s, [c]);
    if c in s {
      var i :| 0 <= i < |s| && s[i] == c;
      assert OccursAt(s, [c], i);
    }
    if exists i :: OccursAt(s, [c], i) {
      var i :| OccursAt(s, [c], i);
      assert s[i] == [c][0];
    }
  }

  /** The checks of `handleChangeEmail`, in order; `current` is the signed-in user's
      email, which may be absent. */
  function EmailError(newEmail: string, confirmation: string, current: Option<string>): (r: Option<string>)
    ensures r.None? <==> newEmail == confirmation && '@' in newEmail && current != Some(newEmail)
    ensures newEmail != confirmation ==> r == Some(EmailMismatch)
    ensures newEmail == confirmation && '@' !in newEmail ==> r == Some(EmailInvalid)
    ensures newEmail == confirmation && '@' in newEmail && current == Some(newEmail) ==> r == Some(EmailUnchanged)
  {
    ContainsChar(newEmail, '@');
    if newEmail != confirmation then Some(EmailMismatch)
    else if !Contains(newEmail, "@") then Some(EmailInvalid)
    else if current == Some(newEmail) then Some(EmailUnchanged)
    else None
  }
}
