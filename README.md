# caps-collective: the deterministic core, modelled in Dafny

caps-collective is a community web app built from React pages over a hosted database.
Members list their skills and respond to "needs" posted by the organisation. Admins
create needs, manage users and invitations, and follow the responses. Beneath the
screens sits a small layer of deterministic logic, and this project models that
layer and proves what it promises.

- **Profile photo upload** (`PhotoUpload`, photo_upload.dfy):
  - The picture is scaled to fit 800×800 with one ratio.
  - A greedy JPEG quality search starts at 0.92 and steps down by 0.05. It stops on a
    three-clause acceptance test.
  - The file name's extension is rewritten to `.jpg`.
  - The storage path is chosen from the user id, the temp id or a generated id.
  - The file handler ties these steps together.
- **Need description** (`NeedForm`, need_form.dfy):
  - The formatter turns the structured need form into one description string. It
    emits up to six sections in a fixed order and numbers the scope items.
  - The form also holds the scope/requirement list editors, the create-need guard
    with its form reset, and the admin password/email validators.
- **Response tally** (`ResponseTally`, response_tally.dfy): the admin console groups
  all need responses into a per-need `{total, pending}` table, plus a global pending
  count.
- **List views** (`ListViews`, list_views.dfy):
  - The admin user list has status tabs and search.
  - The admin need search and the needs-board category and search filter.
  - Pages of 10 (admin) and 9 (board).
  - The category colour and icon tables with their fallbacks.
  - The local list updates once toggle, update and delete requests return (the need
    toggle does not read the reply).
- **Dashboard** (`Dashboard`, dashboard.dfy):
  - The member's responded-to need ids are deduplicated and split into chunks of ten
    for the database's `in` query.
  - The fetched needs are merged with the active needs through an insertion-ordered
    Map: responded-to needs first, no id twice. The result is cut to five and kept as
    the `recentNeeds` state. The Active Needs card lists its first four, under a badge
    with its length.
  - The skills and connections cards show four entries and a "+n more" line.

Two support modules hold the JavaScript built-ins the pages rely on:
- `Seqs` (seqs.dfy): `filter`, `slice`, `[...new Set(..)]`, concatenation.
- `Text` (text.dfy): `trim`, `toLowerCase`, `includes`, `join`, decimal rendering.

How the model is built:
- Browser, clock, randomness and network inputs are parameters:
  - the JPEG encoder is a function from quality (in hundredths) to a blob size in
    bytes, or to no blob;
  - decoding is success or failure;
  - `Date.now()` and the random id are arguments;
  - the database answers for the applied-need chunks are a function from a chunk to
    a list of needs;
  - the server reply to a create request is an argument.
- Code that updates variables step by step is written as methods with loops. Each
  method is proved equal to a specification function:
  - the quality loop;
  - the section pushes of the formatter;
  - the item edit;
  - the response grouping;
  - the user filter;
  - the id chunking;
  - the chunk accumulation;
  - the two Map passes.
- The properties are proved about those functions.

The quality search stops at the first quality at or below 0.50, which is 0.47. That
is at most ten encoder calls, and the returned quality can be 0.47
(`IncompressibleImageStopsAtFloor`).

Other modelling choices:
- Quality is held in integer hundredths: 92, 87, …, 52, 47.
- `sizeKB ≤ 500` is `bytes ≤ 512000` and `sizeKB ≤ 1024` is `bytes ≤ 1048576`.
- `Math.round(x)` is `⌊x + ½⌋`, computed exactly on integers.
- `min(800/w, 800/h)` is chosen by comparing `800·h` with `800·w`.
- An absent optional string (`email?`, `displayName?`, `invitationId`) is `""`.
  `invitationId` is only tested for truthiness. `email` and `displayName` are also
  searched (src/app/admin/page.tsx:493-494), but only under `if (searchQuery)`, with a
  non-empty query. A missing field (`undefined` through `?.`) and `""` both fail that
  match, so the two agree.

## Model

| member | source | states |
|---|---|---|
| PhotoUpload.RoundDiv | src/components/ProfilePhotoUpload.tsx:37-38 | `Math.round(num/den)`: the result is within half a unit of the exact quotient |
| PhotoUpload.FitWithin | src/components/ProfilePhotoUpload.tsx:33-39 | Within 800×800 the dimensions are unchanged. Otherwise both sides fit within 800, neither grows, and the constraining side becomes exactly 800 |
| PhotoUpload.FitWithinKeepsAspect | src/components/ProfilePhotoUpload.tsx:36-38 | One ratio scales both sides, so the aspect ratio is kept up to rounding: `2·|w'h − h'w| ≤ max(w, h)` |
| PhotoUpload.RoundDivExact | src/components/ProfilePhotoUpload.tsx:37-38 | Rounding an exact quotient returns it |
| PhotoUpload.RoundDivAtMost | src/components/ProfilePhotoUpload.tsx:37-38 | Rounding never passes an integer bound of the exact quotient |
| PhotoUpload.QualityLadder | src/components/ProfilePhotoUpload.tsx:57-59 | Attempt i uses quality q − 5i. Every attempt but the last is above the 0.50 floor |
| PhotoUpload.AtMostTenAttempts | src/components/ProfilePhotoUpload.tsx:57-59 | The search starts at 92 and makes 1 to 10 encoder calls, at strictly decreasing qualities, ending at 47 or above |
| PhotoUpload.FirstAcceptableWins | src/components/ProfilePhotoUpload.tsx:61-94 | Greedy: every earlier attempt produced a blob that failed all three acceptance clauses. The outcome is the last attempt, either accepted or a null blob |
| PhotoUpload.NeverNullAlwaysAccepted | src/components/ProfilePhotoUpload.tsx:72-83 | If the encoder always yields a blob, the search always ends with an accepted candidate |
| PhotoUpload.CompressImage | src/components/ProfilePhotoUpload.tsx:25-111 | The loop's outcome is the specified compression: a read/load failure, a missing canvas context, or a null blob ends it with an error and no retry. It makes exactly as many encoder calls as the quality ladder has attempts, at most 10 |
| PhotoUpload.JpegFileName | src/components/ProfilePhotoUpload.tsx:167 | A final `.` followed by one or more characters that are neither `.` nor `/` is replaced by `.jpg`. Any other name is unchanged |
| PhotoUpload.JpegFileNameIdempotent | src/components/ProfilePhotoUpload.tsx:167 | Rewriting an already rewritten name changes nothing |
| PhotoUpload.StoragePathFolders | src/components/ProfilePhotoUpload.tsx:169-177 | The path's top folder is `profile-photos` exactly when a user id is given, else `pending-profile-photos`. Its second segment is the user id, the temp id or `temp_<now>_<random>`. The leaf is `<now>_<name>`, or the bare name for a generated id |
| PhotoUpload.HandleFileSelect | src/components/ProfilePhotoUpload.tsx:129-200 | No file does nothing. A non-`image/` type is rejected before any compression. A failed compression yields the upload-failed message. Otherwise the compressed blob is uploaded to the storage path of the `.jpg` name, and the savings line shows exactly when the original was larger |
| PhotoUpload.OversizedPhotoFits | src/components/ProfilePhotoUpload.tsx:33-39 | A 4000×3000 photo becomes 800×600 |
| PhotoUpload.SmallPhotoAcceptedFirst | src/components/ProfilePhotoUpload.tsx:72-76 | A blob of at most 500 KB at 0.92 is accepted on the first call |
| PhotoUpload.IncompressibleImageStopsAtFloor | src/components/ProfilePhotoUpload.tsx:57-94 | An image that stays at 1500 KB at every quality ends after 10 calls, accepted at 0.47 |
| NeedForm.KindAt | src/app/admin/page.tsx:176-200 | The six sections have ranks 0..5 in emission order |
| NeedForm.ValidItems | src/components/AdminNeedModal.tsx:45 | `items.filter(s => s.trim())`: a string is among the kept items exactly when it is a non-blank item |
| NeedForm.ValidItemsCount | src/components/AdminNeedModal.tsx:45 | The kept items are as many as the non-blank items, duplicates included |
| NeedForm.ValidItemsAreTheNonBlank | src/app/admin/page.tsx:186-188 | Every non-blank item survives: the item at index i is entry i − (blanks before i) of the kept items, so it is numbered i − (blanks before i) + 1 |
| NeedForm.ValidItemsSubsequence | src/app/admin/page.tsx:186 | The kept items are an order-preserving sub-list of the items |
| NeedForm.ValidItemsEmptyIff | src/app/admin/page.tsx:186-187 | Nothing is kept exactly when every item is blank |
| NeedForm.ValidItemsAppendBlank | src/components/AdminNeedModal.tsx:45 | A blank item added at the end changes nothing |
| NeedForm.Numbered | src/components/AdminNeedModal.tsx:47 | Numbering keeps one entry per item |
| NeedForm.KindsOrdered | src/app/admin/page.tsx:177-200 | Every present section and only those is pushed, in strictly increasing rank |
| NeedForm.PartsRenderKinds | src/app/admin/page.tsx:177-200 | Each pushed part is its section's heading followed by the section body |
| NeedForm.FormatNeedDescription | src/app/admin/page.tsx:173-203 | The step-by-step pushes build exactly the specified description (the modal's copy is the same code: src/components/AdminNeedModal.tsx:32-62) |
| NeedForm.PartsNonEmpty | src/app/admin/page.tsx:177-199 | No part is empty |
| NeedForm.NoPartsIff | src/app/admin/page.tsx:177-199 | There is no part exactly when every field is empty and every item is blank |
| NeedForm.DescriptionEmptyIff | src/app/admin/page.tsx:202 | The description is `''` exactly when every field is empty and every scope item and requirement is blank |
| NeedForm.SectionsInFixedOrder | src/components/AdminNeedModal.tsx:32-61 | Location, timeline, overview, scope, requirements, additional info, in that order; each part starts with its heading; present sections only |
| NeedForm.DigitPrefix | src/components/AdminNeedModal.tsx:47 | The leading run of digits of a string |
| NeedForm.NumberingIsConsecutive | src/app/admin/page.tsx:188 | The surviving scope items are numbered 1..k consecutively as `i. item` |
| NeedForm.SameSections | src/app/admin/page.tsx:177-200 | Drafts whose sections agree describe the same parts |
| NeedForm.SameValidItems | src/app/admin/page.tsx:186-195 | Drafts that differ only in blank scope items or requirements, so that their valid items agree, have the same description |
| NeedForm.BlankItemInvisible | src/app/admin/page.tsx:186-195 | Adding a blank scope item or requirement leaves the description unchanged |
| NeedForm.InitialDraftDescribesNothing | src/components/AdminNeedModal.tsx:18-27 | The initial form describes nothing |
| NeedForm.AddItem | src/components/AdminNeedModal.tsx:216 | Adding appends one empty item and keeps the others |
| NeedForm.EditItem | src/components/AdminNeedModal.tsx:229-232 | The copied list has position i replaced and every other position unchanged (requirements: src/components/AdminNeedModal.tsx:277-280) |
| NeedForm.RemoveItem | src/components/AdminNeedModal.tsx:241 | Removal deletes exactly index i and shifts the rest down (requirements: src/components/AdminNeedModal.tsx:289) |
| NeedForm.ListNeverEmpty | src/components/AdminNeedModal.tsx:237-242 | Removal is offered only on lists of two or more, so no sequence of edits empties a list (requirements: src/components/AdminNeedModal.tsx:285-290) |
| NeedForm.CreateNeed | src/app/admin/page.tsx:205-253 | A request is sent exactly when the guard holds, carrying the title, the formatted description, the category and the uid. A refused guard returns before anything is set, keeping the draft and the message already shown. Success resets the form to its initial state with the success message. A refusal by the server shows `Error: <error>`, and an unreachable server shows `Failed to create need`; both keep the draft (modal: src/components/AdminNeedModal.tsx:64-120) |
| NeedForm.ModalGuardWeaker | src/components/AdminNeedModal.tsx:66 | The guard inside the modal's `handleCreateNeed` needs only a signed-in user and a title: it accepts every draft the page's guard accepts, and also a draft without an overview |
| NeedForm.ResetAfterSuccess | src/components/AdminNeedModal.tsx:94-103 | After a created reply the form is exactly the initial one: one empty scope item and one empty requirement |
| NeedForm.PasswordError | src/app/admin/page.tsx:533-541 | A password change is refused exactly on a mismatch, reported first, or on fewer than 6 characters |
| NeedForm.ContainsChar | src/app/admin/page.tsx:582 | `includes('@')` holds exactly when `@` occurs |
| NeedForm.EmailError | src/app/admin/page.tsx:577-590 | An email change is refused exactly on a mismatch, a missing `@` or an unchanged email, checked and reported in that order |
| ResponseTally.PendingFilterLength | src/app/admin/page.tsx:147-149 | The filter-then-length pending count is the count of pending responses |
| ResponseTally.PendingAtMostTotal | src/app/admin/page.tsx:153-162 | Per need, pending ≤ total, and the total is positive exactly for need ids that occur |
| ResponseTally.TalliedStep | src/app/admin/page.tsx:153-161 | Tallying one more response (a zero entry for an unseen need, total + 1, pending + 1 when pending) keeps the table equal to the per-need counts, its keys being the need ids seen |
| ResponseTally.GroupResponses | src/app/admin/page.tsx:145-163 | The table's keys are exactly the need ids that occur. Each entry holds that need's response count and pending count. The global count is the number of pending responses |
| ResponseTally.SumOverStep | src/app/admin/page.tsx:153-162 | One response adds one to exactly one need's tally |
| ResponseTally.CountAllTotals | src/app/admin/page.tsx:153-158 | Every response adds to a total |
| ResponseTally.AbsentIdCountsZero | src/app/admin/page.tsx:153-158 | A need id no response carries has no count |
| ResponseTally.SumsStepKnown | src/app/admin/page.tsx:153-162 | A response for a need already in the table keeps the sums equal to the tallies |
| ResponseTally.SumsStepNew | src/app/admin/page.tsx:155-157 | A response for a new need adds its id and keeps the sums equal to the tallies |
| ResponseTally.SumsStep | src/app/admin/page.tsx:153-162 | Each response keeps the sum over the distinct need ids equal to the tally |
| ResponseTally.SumsMatchTotals | src/app/admin/page.tsx:147-162 | Summing the per-need tallies over the distinct need ids gives the tally over all responses |
| ResponseTally.TableSums | src/app/admin/page.tsx:147-162 | The per-need totals add up to the number of responses. The per-need pending counts add up to the global pending count |
| ListViews.FilteredUsers | src/app/admin/page.tsx:465-499 | The result is an order-preserving sub-list of the users. A user is kept exactly when it passes the status tab and, for a non-empty query, its lower-cased email or display name contains the lower-cased query. The "all" tab with an empty query returns the users unchanged |
| ListViews.AdminNeedsSearch | src/app/admin/page.tsx:507-516 | A query whose trim is empty returns all needs. Otherwise a need is kept exactly when its lower-cased title, description or category contains the lower-cased, trimmed query; order is kept |
| ListViews.BoardNeedsFilters | src/app/needs/page.tsx:90-109 | The board list is an order-preserving sub-list. With no category and a blank query it is all needs. With a category every result has it. Otherwise membership is the category test and the search test |
| ListViews.PageIsSlice | src/app/admin/page.tsx:501-505 | Page p is the contiguous slice from (p−1)·n, at most n items, clipped at the end |
| ListViews.PageZeroEmpty | src/app/admin/page.tsx:503-504 | Page 0 is empty |
| ListViews.PageNonEmptyIffStarts | src/app/admin/page.tsx:501-505 | A page is non-empty exactly when its start index (p−1)·n lies inside the list |
| ListViews.TotalPagesBounds | src/app/needs/page.tsx:112 | `Math.ceil(len/n)` pages hold at least len and fewer than len + n items |
| ListViews.PageNonEmptyIff | src/app/needs/page.tsx:112-116 | For p ≥ 1, page p is non-empty exactly when p ≤ totalPages |
| ListViews.PagesCover | src/app/needs/page.tsx:113-116 | Pages 1..k laid end to end are the first k·n items |
| ListViews.PagesPartitionList | src/app/needs/page.tsx:112-116 | Pages 1..totalPages laid end to end are the whole list |
| ListViews.AdminPages | src/app/admin/page.tsx:501-527 | The user, need and invitation pages hold at most 10 items. An invitation page is its contiguous slice |
| ListViews.BoardPages | src/app/needs/page.tsx:112-116 | Board pages hold at most 9 needs and are non-empty exactly up to totalPages |
| ListViews.CategoryColor | src/app/needs/page.tsx:123-144 | The sky class is returned exactly for the eight sky categories. Every other category, including unmapped ones such as `Other`, gets `bg-[#00245D]` |
| ListViews.CategoryIcon | src/app/needs/page.tsx:17-36 | The mapped icon, and 📋 for an unmapped category (fallback at src/app/needs/page.tsx:214 and :250) |
| ListViews.CategoryTablesAgree | src/app/needs/page.tsx:17-36 | Every coloured category has its own icon. `Other` has only the fallback colour and icon |
| ListViews.ToggleNeedActive | src/app/admin/page.tsx:273-275 | Only needs with the id change, and only their active flag, which becomes the negation of the current status |
| ListViews.ToggleNeedActiveTwice | src/app/admin/page.tsx:273-275 | Toggling back restores the list |
| ListViews.ToggleAdmin | src/app/admin/page.tsx:392-394 | Only users with the id change, and only their admin flag |
| ListViews.ToggleAdminTwice | src/app/admin/page.tsx:392-394 | Toggling back restores the list |
| ListViews.UpdateNeed | src/app/admin/page.tsx:663 | Only needs with the id change: title, description and category take the edit, and id and active flag are kept |
| ListViews.UpdateNeedIdempotent | src/app/admin/page.tsx:663 | Re-applying the same edit changes nothing |
| ListViews.RemoveNeedOnlyMatching | src/app/admin/page.tsx:297 | Deleting drops exactly the needs with the id and keeps the rest in order |
| ListViews.RemoveUserOnlyMatching | src/app/admin/page.tsx:426 | Deleting drops exactly the users with the id and keeps the rest in order |
| ListViews.RemoveInvitationOnlyMatching | src/app/admin/page.tsx:720 | Deleting drops exactly the invitations with the id and keeps the rest in order |
| Dashboard.AppliedNeedIdsUnique | src/app/dashboard/page.tsx:58 | The applied ids have no duplicates, are exactly the response need ids, and follow their first-occurrence order |
| Dashboard.ChunkIds | src/app/dashboard/page.tsx:60-64 | The loop builds exactly the chunks of ten |
| Dashboard.ChunksPartitionIds | src/app/dashboard/page.tsx:61-64 | Each chunk has 1 to 10 ids, the chunks laid end to end give back the ids, and there are ⌈n/10⌉ of them |
| Dashboard.FetchApplied | src/app/dashboard/page.tsx:66-71 | The applied needs are the chunk results concatenated in chunk order |
| Dashboard.LastWithId | src/app/dashboard/page.tsx:78 | The need a Map keeps after setting every element is one of the needs with that id |
| Dashboard.FirstWithId | src/app/dashboard/page.tsx:79-83 | The need kept when setting only absent keys is one of the needs with that id |
| Dashboard.LastWithIdSnoc | src/app/dashboard/page.tsx:78 | A later `set` for the same id overrides the earlier one |
| Dashboard.FirstWithIdSnoc | src/app/dashboard/page.tsx:79-83 | A later need whose id is already present is ignored |
| Dashboard.MergeValue | src/app/dashboard/page.tsx:77-83 | The kept need has the key's id and comes from the applied or the recent list |
| Dashboard.SetEach | src/app/dashboard/page.tsx:78 | After the first pass the keys are the distinct applied ids in insertion order, each holding its last applied need |
| Dashboard.SetHoldsStep | src/app/dashboard/page.tsx:78 | One `set` appends the id to the insertion order only when it is new, and makes the id hold the need just set |
| Dashboard.MapHoldsStep | src/app/dashboard/page.tsx:79-83 | An absent id is appended with its need; a present one changes nothing |
| Dashboard.KeepsMergeStepNew | src/app/dashboard/page.tsx:79-83 | Setting an active need under an id no need has yet keeps every key holding the need the merge keeps |
| Dashboard.MergeStep | src/app/dashboard/page.tsx:79-83 | One more recent need extends the key order only by a new id and leaves the kept needs of existing ids alone |
| Dashboard.MergeNeeds | src/app/dashboard/page.tsx:77-86 | The two Map passes and `Array.from(values())` build exactly the specified merge |
| Dashboard.MergedPriority | src/app/dashboard/page.tsx:77-86 | No two merged needs share an id; every applied id appears; applied ids come first in their order and hold applied needs; each later entry is the first recent need with an id no applied need has |
| Dashboard.FirstOfEachIdIds | src/app/dashboard/page.tsx:79-83 | Keeping the first need per id keeps the distinct ids |
| Dashboard.FirstOfEachIdSnoc | src/app/dashboard/page.tsx:79-83 | A recent need is added only if its id is not yet present |
| Dashboard.MergedNoApplied | src/app/dashboard/page.tsx:55-56 | Without applied needs the merge keeps the first need of each id |
| Dashboard.DedupIsFirstOfEachId | src/app/dashboard/page.tsx:79-83 | Dropping needs whose id came earlier is keeping the first need of each id |
| Dashboard.MergedWithoutResponses | src/app/dashboard/page.tsx:55-56 | With no responses the merge is the active needs deduplicated by id |
| Dashboard.TopNeeds | src/app/dashboard/page.tsx:89 | The shown needs are the first min(5, n) merged needs |
| Dashboard.LoadRecentNeeds | src/app/dashboard/page.tsx:53-89 | The `recentNeeds` state is the top five of the merge of the chunk-fetched applied needs with the active needs: at most five, no id twice |
| Dashboard.ActiveNeedsCard | src/app/dashboard/page.tsx:199-202 | The Active Needs card's badge is the length of `recentNeeds` and it lists the first min(4, n) of them, with no "+n more" line |
| Dashboard.ActiveCardOfMerge | src/app/dashboard/page.tsx:89-202 | Rendered from the loaded state, the card lists the first four merged needs and its badge counts min(5, n): one more than listed exactly when five or more needs were merged |
| Dashboard.CardPreview | src/app/dashboard/page.tsx:156-162 | The card shows the first min(4, n) entries. A `+…` line ending in the suffix appears exactly when n > 4 (connections: src/app/dashboard/page.tsx:179-185) |
| Dashboard.PreviewAccountsForAll | src/app/dashboard/page.tsx:162 | The number in the `+n more` line reads back as n − 4, so shown plus more is all entries |
| Dashboard.CardsShowFour | src/app/dashboard/page.tsx:179-185 | Both cards show at most four entries with a more line exactly past four; four or fewer skills are shown whole |
| Seqs.Filter | src/app/admin/page.tsx:470-496 | `Array.prototype.filter`: at most as long, with membership exactly the input's elements that pass |
| Seqs.Distinct | src/app/dashboard/page.tsx:58 | `[...new Set(s)]`: no duplicates, same members |
| Seqs.Slice | src/app/admin/page.tsx:504 | `slice` with non-negative bounds is the clipped sub-range |
| Text.TrimEmptyIffBlank | src/app/admin/page.tsx:508 | `s.trim()` is empty exactly when s is all whitespace |
| Text.ContainsIffOccurs | src/app/admin/page.tsx:490-491 | `includes` holds exactly when the needle occurs at some position |
| Text.NatToStringRoundTrip | src/components/ProfilePhotoUpload.tsx:170 | The decimal rendering of `Date.now()` reads back as the number |

## Left out

- Network and storage calls (`fetch`, Firestore `getDocs`, `uploadBytes`, `getDownloadURL`) and ID tokens are not modelled. Their results are parameters: the encoder oracle, the server reply, and the chunk query function. The model gives no order to the answers of a Firestore `in` query.
- Browser raster APIs (`Image`, `FileReader`, canvas drawing, `toBlob`) become a decode outcome, a canvas-context flag and the encoder oracle. Picture content and smoothing are not modelled.
- Floating point is not modelled. Quality is held in exact hundredths and scaling is exact integer arithmetic with `Math.round`'s rule, so float drift in `quality -= 0.05` and `width * ratio` is absent.
- `Date.now()`, `Math.random().toString(36)`, `setTimeout`, clipboard and console logging are not modelled. The clock and the random id are arguments; the rest has no effect on the logic.
- React state, effects (page resets when filters change), JSX and CSS are not modelled, except the category colour lookup.
- Scoring, AI analysis, invitation creation and sending, analytics and the other admin tabs are outside this core.
- Text.ToLower: maps only ASCII `A`–`Z`. JavaScript's full Unicode case mapping is not modelled, so `ListViews.FilteredUsers`, `ListViews.AdminNeedsSearch` and `ListViews.BoardNeedsFilters` are exact for ASCII text only.
- NeedForm.ModalGuardWeaker: HTML `required` validation is not modelled. The modal's overview field is `required` (src/components/AdminNeedModal.tsx:203), so a browser submit without an overview stops before the handler runs; the lemma is about the handler's own guard.
- NeedForm.CreateNeed: the modal's delayed close (`setTimeout` that notifies the parent, closes and clears the message 1.5 s after success) and the `submitting` flag are not modelled.
- NeedForm.PasswordError: counts code points, while JavaScript's `length` counts UTF-16 code units. The two agree on text without astral characters.
- ResponseTally.GroupResponses: the JavaScript object used as the table would also find inherited keys such as `constructor`. The model is a plain map and assumes need ids are ordinary document ids.
- ListViews.CategoryColor: the same inherited-key lookup of a JavaScript object is not modelled.
- ListViews.CategoryIcon: the same inherited-key lookup of a JavaScript object is not modelled.
- PhotoUpload.HandleFileSelect: the upload itself and the download URL are not modelled. Failure of the upload shows the same message as a failed compression. The preview and the compression-status text are not modelled, apart from whether the savings line is shown.
- Dashboard.FetchApplied: the chunk query is an arbitrary function of the chunk. The model does not claim that it returns only needs with ids in the chunk.
