/** The member dashboard: the needs the member responded to, fetched in chunks of ten
    ids, merged with the active needs (responded-to needs first, no id twice), cut to
    five; and the four-entry previews of the skills and connections cards. */
module Dashboard {
  import opened Seqs
  import opened Text
  import opened ResponseTally
  import opened ListViews

  /** At most this many ids go into one Firestore `in` query. */
  const ChunkSize: nat := 10
  const ShownNeeds: nat := 5
  const PreviewSize: nat := 4

  // ---------------------------------------------------------------------------
  // Applied need ids and their chunks

  /** `[...new Set(responses.map(r => r.needId))]`. */
  function AppliedNeedIds(responses: seq<Response>): seq<string> {
    Distinct(NeedIds(responses))
  }

  lemma AppliedNeedIdsUnique(responses: seq<Response>)
    ensures NoDuplicates(AppliedNeedIds(responses))
    ensures forall id :: id in AppliedNeedIds(responses) <==> exists i :: 0 <= i < |responses| && responses[i].needId == id
    ensures forall i, j :: 0 <= i < j < |AppliedNeedIds(responses)| ==>
      FirstIndex(NeedIds(responses), AppliedNeedIds(responses)[i]) < FirstIndex(NeedIds(responses), AppliedNeedIds(responses)[j])
  {
    DistinctFirstOccurrenceOrder(NeedIds(responses));
    forall id | id in AppliedNeedIds(responses)
      ensures exists i :: 0 <= i < |responses| && responses[i].needId == id
    {
      var i :| 0 <= i < |NeedIds(responses)| && NeedIds(responses)[i] == id;
      assert responses[i].needId == id;
    }
    forall id | exists i :: 0 <= i < |responses| && responses[i].needId == id
      ensures id in AppliedNeedIds(responses)
    {
      var i :| 0 <= i < |responses| && responses[i].needId == id;
      assert NeedIds(responses)[i] == id;
    }
  }

  /** The chunks of ten ids: chunk j is the page j + 1 of the id list. */
  function Chunks(ids: seq<string>): seq<seq<string>> {
    PagesUpTo(ids, ChunkSize, TotalPages(|ids|, ChunkSize))
  }

  /** `for (let i = 0; i < ids.length; i += 10) chunks.push(ids.slice(i, i + 10))`. */
  method ChunkIds(ids: seq<string>) returns (chunks: seq<seq<string>>)
    ensures chunks == Chunks(ids)
  {
    chunks := [];
    var i := 0;
    TotalPagesBounds(|ids|, ChunkSize);
    while i < |ids|
      invariant i == ChunkSize * |chunks|
      invariant |chunks| <= TotalPages(|ids|, ChunkSize)
      invariant chunks == PagesUpTo(ids, ChunkSize, |chunks|)
    {
      var next := PagesUpTo(ids, ChunkSize, |chunks| + 1);
      assert next == chunks + [Slice(ids, i, i + 10)];
      chunks := chunks + [Slice(ids, i, i + 10)];
      i := i + 10;
    }
  }

  /** Every chunk holds one to ten ids, the chunks laid end to end are the id list, and
      there are ⌈n / 10⌉ of them. */
  lemma ChunksPartitionIds(ids: seq<string>)
    ensures Flatten(Chunks(ids)) == ids
    ensures |Chunks(ids)| == (|ids| + 9) / 10
    ensures forall j :: 0 <= j < |Chunks(ids)| ==> 1 <= |Chunks(ids)[j]| <= 10
  {
    PagesPartitionList(ids, ChunkSize);
    forall j | 0 <= j < |Chunks(ids)|
      ensures 1 <= |Chunks(ids)[j]| <= 10
    {
      PageIsSlice(ids, j + 1, ChunkSize);
      PageNonEmptyIff(ids, j + 1, ChunkSize);
    }
  }

  /** What the applied-needs query returns for one chunk; Firestore promises no order. */
  type ChunkQuery = seq<string> -> seq<Need>

  function ChunkResults(chunks: seq<seq<string>>, query: ChunkQuery): seq<seq<Need>> {
    seq(|chunks|, j requires 0 <= j < |chunks| => query(chunks[j]))
  }

  /** `appliedNeeds = [...appliedNeeds, ...chunkNeeds]` for each chunk in turn. */
  method FetchApplied(chunks: seq<seq<string>>, query: ChunkQuery) returns (applied: seq<Need>)
    ensures applied == Flatten(ChunkResults(chunks, query))
  {
    applied := [];
    for j := 0 to |chunks|
      invariant applied == Flatten(ChunkResults(chunks[..j], query))
    {
      assert ChunkResults(chunks[..j + 1], query)[..j] == ChunkResults(chunks[..j], query);
      applied := applied + query(chunks[j]);
    }
    assert chunks[..|chunks|] == chunks;
  }

  // ---------------------------------------------------------------------------
  // The merge

  function Ids(needs: seq<Need>): (ids: seq<string>)
    ensures |ids| == |needs|
    ensures forall i :: 0 <= i < |needs| ==> ids[i] == needs[i].id
  {
    seq(|needs|, i requires 0 <= i < |needs| => needs[i].id)
  }

  lemma IdsSnoc(needs: seq<Need>, n: Need)
    ensures Ids(needs + [n]) == Ids(needs) + [n.id]
  {
  }

  lemma IdsAppend(a: seq<Need>, b: seq<Need>)
    ensures Ids(a + b) == Ids(a) + Ids(b)
  {
  }

  /** The value a JavaScript Map keeps after `set` for every element: the last one. */
  function LastWithId(needs: seq<Need>, id: string): (n: Need)
    requires id in Ids(needs)
    ensures n in needs && n.id == id
  {
    var init, last := needs[..|needs| - 1], needs[|needs| - 1];
    IdsSnoc(init, last);
    assert needs == init + [last];
    if last.id == id then last else LastWithId(init, id)
  }

  /** The value kept when `set` only happens while the key is absent: the first one. */
  function FirstWithId(needs: seq<Need>, id: string): (n: Need)
    requires id in Ids(needs)
    ensures n in needs && n.id == id
  {
    needs[FirstIndex(Ids(needs), id)]
  }

  lemma LastWithIdSnoc(needs: seq<Need>, n: Need, id: string)
    requires id in Ids(needs + [n])
    ensures id in Ids(needs) || id == n.id
    ensures LastWithId(needs + [n], id) == if n.id == id then n else LastWithId(needs, id)
  {
    IdsSnoc(needs, n);
    assert (needs + [n])[..|needs|] == needs;
  }

  lemma FirstWithIdSnoc(needs: seq<Need>, n: Need, id: string)
    requires id in Ids(needs + [n])
    ensures FirstWithId(needs + [n], id) == if id in Ids(needs) then FirstWithId(needs, id) else n
  {
    var s := Ids(needs + [n]);
    IdsSnoc(needs, n);
    assert s[..|needs|] == Ids(needs);
    if id in Ids(needs) {
      FirstIndexInPrefix(s, |needs|, id);
    }
  }

  /** The need the merge keeps for `id`: the last responded-to need with that id, else the
      first active need with it. */
  function MergeValue(applied: seq<Need>, recent: seq<Need>, id: string): (n: Need)
    requires id in Ids(applied) || id in Ids(recent)
    ensures n.id == id
    ensures n in applied || n in recent
  {
    if id in Ids(applied) then LastWithId(applied, id) else FirstWithId(recent, id)
  }

  /** `Array.from(allNeedsMap.values())`: the ids in order of first insertion, each with
      its kept need. */
  function Merged(applied: seq<Need>, recent: seq<Need>): seq<Need> {
    var keys := Distinct(Ids(applied) + Ids(recent));
    seq(|keys|, i requires 0 <= i < |keys| =>
      assert keys[i] in keys; MergeValue(applied, recent, keys[i]))
  }

  /** The Map after `set` for every need of `applied`: keys in insertion order, each with
      its last need. */
  ghost predicate SetHolds(applied: seq<Need>, order: seq<string>, table: map<string, Need>) {
    && order == Distinct(Ids(applied))
    && (forall k :: k in table <==> k in order)
    && (forall k :: k in table ==> k in Ids(applied) && table[k] == LastWithId(applied, k))
  }

  /** One more `set` keeps the Map in step: a new id joins the order, and the id's
      entry becomes the need just set. */
  lemma SetHoldsStep(applied: seq<Need>, n: Need, order: seq<string>, table: map<string, Need>)
    requires SetHolds(applied, order, table)
    ensures SetHolds(applied + [n], if n.id in table then order else order + [n.id], table[n.id := n])
  {
    IdsSnoc(applied, n);
    DistinctSnoc(Ids(applied), n.id);
    var table' := table[n.id := n];
    forall k | k in table'
      ensures k in Ids(applied + [n]) && table'[k] == LastWithId(applied + [n], k)
    {
      LastWithIdSnoc(applied, n, k);
    }
  }

  /** `appliedNeeds.forEach(n => allNeedsMap.set(n.id, n))` on an empty Map, kept as the
      keys in insertion order and the key-to-value table. */
  method SetEach(applied: seq<Need>) returns (order: seq<string>, table: map<string, Need>)
    ensures order == Distinct(Ids(applied))
    ensures forall k :: k in table <==> k in order
    ensures forall k :: k in table ==> k in Ids(applied) && table[k] == LastWithId(applied, k)
  {
    order, table := [], map[];
    assert applied[..0] == [];
    for i := 0 to |applied|
      invariant SetHolds(applied[..i], order, table)
    {
      var n := applied[i];
      assert applied[..i + 1] == applied[..i] + [n];
      SetHoldsStep(applied[..i], n, order, table);
      if n.id !in table {
        order := order + [n.id];
      }
      table := table[n.id := n];
    }
    assert applied[..|applied|] == applied;
  }

  /** The Map after both passes have seen `applied` and `recent`: insertion order and
      the need kept per key. */
  ghost predicate MapHolds(applied: seq<Need>, recent: seq<Need>, order: seq<string>, table: map<string, Need>) {
    && order == Distinct(Ids(applied) + Ids(recent))
    && (forall k :: k in table <==> k in order)
    && KeepsMerge(applied, recent, table)
  }

  /** Every key holds the need the merge keeps for it. */
  ghost predicate KeepsMerge(applied: seq<Need>, recent: seq<Need>, table: map<string, Need>) {
    forall k :: k in table ==> (k in Ids(applied) || k in Ids(recent)) && table[k] == MergeValue(applied, recent, k)
  }

  /** Setting a need under a new id keeps every key's need in step with the merge. */
  lemma KeepsMergeStepNew(applied: seq<Need>, recent: seq<Need>, n: Need, table: map<string, Need>)
    requires KeepsMerge(applied, recent, table)
    requires n.id !in Ids(applied) && n.id !in Ids(recent)
    ensures KeepsMerge(applied, recent + [n], table[n.id := n])
  {
    MergeStep(applied, recent, n);
    var table' := table[n.id := n];
    forall k | k in table'
      ensures (k in Ids(applied) || k in Ids(recent + [n])) && table'[k] == MergeValue(applied, recent + [n], k)
    {
      if k != n.id {
        assert k in table && table'[k] == table[k];
        assert k in Ids(applied) || k in Ids(recent);
        assert table[k] == MergeValue(applied, recent, k);
      } else {
        assert table'[k] == n;
      }
    }
  }

  lemma MapHoldsStart(applied: seq<Need>, order: seq<string>, table: map<string, Need>)
    requires order == Distinct(Ids(applied))
    requires forall k :: k in table <==> k in order
    requires forall k :: k in table ==> k in Ids(applied) && table[k] == LastWithId(applied, k)
    ensures MapHolds(applied, [], order, table)
  {
    assert Ids(applied) + Ids([]) == Ids(applied);
  }

  /** An active need whose id the Map lacks is appended with its need. */
  lemma MapHoldsStepNew(applied: seq<Need>, recent: seq<Need>, n: Need, order: seq<string>, table: map<string, Need>)
    requires MapHolds(applied, recent, order, table)
    requires n.id !in table
    ensures MapHolds(applied, recent + [n], order + [n.id], table[n.id := n])
  {
    MergeStep(applied, recent, n);
    assert n.id !in Ids(applied) + Ids(recent);
    KeepsMergeStepNew(applied, recent, n, table);
  }

  /** An active need whose id the Map already holds changes nothing. */
  lemma MapHoldsStepPresent(applied: seq<Need>, recent: seq<Need>, n: Need, order: seq<string>, table: map<string, Need>)
    requires MapHolds(applied, recent, order, table)
    requires n.id in table
    ensures MapHolds(applied, recent + [n], order, table)
  {
    MergeStep(applied, recent, n);
    assert n.id in Ids(applied) + Ids(recent);
  }

  /** One step of the second pass keeps the Map in step with the merge. */
  lemma MapHoldsStep(applied: seq<Need>, recent: seq<Need>, n: Need, order: seq<string>, table: map<string, Need>)
    requires MapHolds(applied, recent, order, table)
    ensures n.id !in table ==> MapHolds(applied, recent + [n], order + [n.id], table[n.id := n])
    ensures n.id in table ==> MapHolds(applied, recent + [n], order, table)
  {
    if n.id in table {
      MapHoldsStepPresent(applied, recent, n, order, table);
    } else {
      MapHoldsStepNew(applied, recent, n, order, table);
    }
  }

  /** `recentNeeds.forEach(n => { if (!allNeedsMap.has(n.id)) allNeedsMap.set(n.id, n) })`. */
  method SetEachAbsent(applied: seq<Need>, recent: seq<Need>, order0: seq<string>, table0: map<string, Need>)
    returns (order: seq<string>, table: map<string, Need>)
    requires MapHolds(applied, [], order0, table0)
    ensures MapHolds(applied, recent, order, table)
  {
    order, table := order0, table0;
    assert recent[..0] == [];
    for j := 0 to |recent|
      invariant MapHolds(applied, recent[..j], order, table)
    {
      var n := recent[j];
      assert recent[..j + 1] == recent[..j] + [n];
      MapHoldsStep(applied, recent[..j], n, order, table);
      if n.id !in table {
        order := order + [n.id];
        table := table[n.id := n];
      }
    }
    assert recent[..|recent|] == recent;
  }

  /** One more active need: its id joins the order when new, and the kept needs of the
      ids already present do not change. */
  lemma MergeStep(applied: seq<Need>, recent: seq<Need>, n: Need)
    ensures Ids(recent + [n]) == Ids(recent) + [n.id]
    ensures Distinct(Ids(applied) + Ids(recent + [n])) ==
      var d := Distinct(Ids(applied) + Ids(recent));
      if n.id in d then d else d + [n.id]
    ensures forall k :: k in Ids(applied) || k in Ids(recent) ==>
      MergeValue(applied, recent + [n], k) == MergeValue(applied, recent, k)
    ensures !(n.id in Ids(applied) || n.id in Ids(recent)) ==> MergeValue(applied, recent + [n], n.id) == n
  {
    IdsSnoc(recent, n);
    assert Ids(applied) + Ids(recent + [n]) == (Ids(applied) + Ids(recent)) + [n.id];
    DistinctSnoc(Ids(applied) + Ids(recent), n.id);
    forall k | k in Ids(applied) || k in Ids(recent)
      ensures MergeValue(applied, recent + [n], k) == MergeValue(applied, recent, k)
    {
      if k !in Ids(applied) {
        FirstWithIdSnoc(recent, n, k);
      }
    }
    if !(n.id in Ids(applied) || n.id in Ids(recent)) {
      FirstWithIdSnoc(recent, n, n.id);
    }
  }

  /** The two `forEach` passes over the Map, then `Array.from(allNeedsMap.values())`:
      every responded-to need is `set`; an active need only when its id is absent. */
  method MergeNeeds(applied: seq<Need>, recent: seq<Need>) returns (merged: seq<Need>)
    ensures merged == Merged(applied, recent)
  {
    var order, table := SetEach(applied);
    MapHoldsStart(applied, order, table);
    order, table := SetEachAbsent(applied, recent, order, table);
    merged := seq(|order|, i requires 0 <= i < |order| => assert order[i] in order; table[order[i]]);
  }

  /** No two merged needs share an id; the responded-to ids come first, in their
      order; and every later entry is the first active need with an id no response named. */
  lemma MergedPriority(applied: seq<Need>, recent: seq<Need>)
    ensures Ids(Merged(applied, recent)) == Distinct(Ids(applied) + Ids(recent))
    ensures NoDuplicates(Ids(Merged(applied, recent)))
    ensures forall id :: id in Ids(Merged(applied, recent)) <==> id in Ids(applied) || id in Ids(recent)
    ensures |Distinct(Ids(applied))| <= |Merged(applied, recent)|
    ensures Ids(Merged(applied, recent))[..|Distinct(Ids(applied))|] == Distinct(Ids(applied))
    ensures forall i :: 0 <= i < |Merged(applied, recent)| && Merged(applied, recent)[i].id in Ids(applied) ==>
      Merged(applied, recent)[i] in applied
    ensures forall i :: |Distinct(Ids(applied))| <= i < |Merged(applied, recent)| ==>
      Merged(applied, recent)[i].id !in Ids(applied)
      && Merged(applied, recent)[i] == FirstWithId(recent, Merged(applied, recent)[i].id)
  {
    DistinctAppend(Ids(applied), Ids(recent));
  }

  /** Dropping every need whose id an earlier need already has. */
  function DedupById(needs: seq<Need>): seq<Need> {
    if needs == [] then []
    else
      var init, last := needs[..|needs| - 1], needs[|needs| - 1];
      var d := DedupById(init);
      if last.id in Ids(d) then d else d + [last]
  }

  /** The first need of each id, in order of first occurrence. */
  function FirstOfEachId(needs: seq<Need>): (firsts: seq<Need>)
    ensures |firsts| == |Distinct(Ids(needs))|
  {
    var keys := Distinct(Ids(needs));
    seq(|keys|, i requires 0 <= i < |keys| => assert keys[i] in keys; FirstWithId(needs, keys[i]))
  }

  lemma FirstOfEachIdIds(needs: seq<Need>)
    ensures Ids(FirstOfEachId(needs)) == Distinct(Ids(needs))
  {
  }

  /** One more need keeps the first need of every id already present, in place. */
  lemma FirstOfEachIdSnocPrefix(init: seq<Need>, last: Need)
    ensures Distinct(Ids(init + [last])) ==
      var keys := Distinct(Ids(init)); if last.id in keys then keys else keys + [last.id]
    ensures |FirstOfEachId(init)| <= |FirstOfEachId(init + [last])|
    ensures forall i :: 0 <= i < |FirstOfEachId(init)| ==>
      FirstOfEachId(init + [last])[i] == FirstOfEachId(init)[i]
  {
    IdsSnoc(init, last);
    DistinctSnoc(Ids(init), last.id);
    var keys := Distinct(Ids(init));
    forall i | 0 <= i < |keys|
      ensures FirstOfEachId(init + [last])[i] == FirstOfEachId(init)[i]
    {
      assert keys[i] in keys;
      FirstWithIdSnoc(init, last, keys[i]);
    }
  }

  lemma FirstOfEachIdSnocKnown(init: seq<Need>, last: Need)
    requires last.id in Ids(init)
    ensures FirstOfEachId(init + [last]) == FirstOfEachId(init)
  {
    FirstOfEachIdSnocPrefix(init, last);
    assert last.id in Distinct(Ids(init));
  }

  lemma FirstOfEachIdSnocNew(init: seq<Need>, last: Need)
    requires last.id !in Ids(init)
    ensures FirstOfEachId(init + [last]) == FirstOfEachId(init) + [last]
  {
    FirstOfEachIdSnocPrefix(init, last);
    var d, d' := FirstOfEachId(init), FirstOfEachId(init + [last]);
    var keys' := Distinct(Ids(init + [last]));
    assert keys'[|d|] == last.id;
    IdsSnoc(init, last);
    FirstWithIdSnoc(init, last, last.id);
    assert d'[|d|] == last;
    assert |d'| == |d + [last]|;
    forall i | 0 <= i < |d'|
      ensures d'[i] == (d + [last])[i]
    {
    }
  }

  lemma FirstOfEachIdSnoc(init: seq<Need>, last: Need)
    ensures FirstOfEachId(init + [last]) ==
      if last.id in Ids(init) then FirstOfEachId(init) else FirstOfEachId(init) + [last]
  {
    if last.id in Ids(init) {
      FirstOfEachIdSnocKnown(init, last);
    } else {
      FirstOfEachIdSnocNew(init, last);
    }
  }

  lemma MergedNoApplied(recent: seq<Need>)
    ensures Merged([], recent) == FirstOfEachId(recent)
  {
    assert Ids([]) + Ids(recent) == Ids(recent);
  }

  lemma {:induction false} DedupIsFirstOfEachId(needs: seq<Need>)
    ensures DedupById(needs) == FirstOfEachId(needs)
    decreases |needs|
  {
    if needs != [] {
      var init, last := needs[..|needs| - 1], needs[|needs| - 1];
      DedupIsFirstOfEachId(init);
      var d := DedupById(init);
      FirstOfEachIdIds(init);
      assert last.id in Ids(d) <==> last.id in Ids(init) by {
        assert Ids(d) == Distinct(Ids(init));
      }
      assert needs == init + [last];
      FirstOfEachIdSnoc(init, last);
    }
  }

  /** With no responses the merge is the active needs deduplicated by id. */
  lemma MergedWithoutResponses(recent: seq<Need>)
    ensures Merged([], recent) == DedupById(recent)
  {
    MergedNoApplied(recent);
    DedupIsFirstOfEachId(recent);
  }

  /** `mergedNeeds.slice(0, 5)`. */
  function TopNeeds(merged: seq<Need>): (shown: seq<Need>)
    ensures |shown| == Min(ShownNeeds, |merged|)
    ensures shown == merged[..|shown|]
  {
    Slice(merged, 0, ShownNeeds)
  }

  /** The applied needs as the page gathers them: nothing without responses, otherwise
      the query results for each chunk of the distinct response need ids. */
  function AppliedNeeds(responses: seq<Response>, query: ChunkQuery): seq<Need> {
    if responses == [] then [] else Flatten(ChunkResults(Chunks(AppliedNeedIds(responses)), query))
  }

  /** The `recentNeeds` state the dashboard's loading effect sets, from the member's
      responses, the active needs and the chunk query. */
  method LoadRecentNeeds(responses: seq<Response>, active: seq<Need>, query: ChunkQuery) returns (shown: seq<Need>)
    ensures shown == TopNeeds(Merged(AppliedNeeds(responses, query), active))
    ensures |shown| <= ShownNeeds
    ensures NoDuplicates(Ids(shown))
  {
    var applied: seq<Need> := [];
    if |responses| > 0 {
      var ids := AppliedNeedIds(responses);
      if |ids| > 0 {
        var chunks := ChunkIds(ids);
        applied := FetchApplied(chunks, query);
      }
    }
    var merged := MergeNeeds(applied, active);
    shown := TopNeeds(merged);
    MergedPriority(applied, active);
    assert Ids(shown) == Ids(merged)[..|shown|];
  }

  /** The Active Needs card: a badge with `recentNeeds.length` and the first four needs
      (`recentNeeds.slice(0, 4)`); unlike the skills and connections cards it has no
      "+n more" line. */
  datatype ActiveCard = ActiveCard(badge: nat, rendered: seq<Need>)

  function ActiveNeedsCard(recent: seq<Need>): (card: ActiveCard)
    ensures card.badge == |recent|
    ensures card.rendered == recent[..Min(PreviewSize, |recent|)]
  {
    ActiveCard(|recent|, Slice(recent, 0, PreviewSize))
  }

  /** Rendered from the loaded state, the card lists the first four merged needs, while
      its badge counts up to five: one more than the card lists exactly when five or
      more needs were merged. */
  lemma ActiveCardOfMerge(merged: seq<Need>)
    ensures var card := ActiveNeedsCard(TopNeeds(merged));
      && card.rendered == merged[..Min(PreviewSize, |merged|)]
      && card.badge == Min(ShownNeeds, |merged|)
      && (card.badge > |card.rendered| <==> |merged| >= ShownNeeds)
  {
    var recent := TopNeeds(merged);
    assert recent[..Min(PreviewSize, |recent|)] == merged[..Min(PreviewSize, |merged|)];
  }

  // ---------------------------------------------------------------------------
  // Card previews

  /** A card shows the first four entries and, when there are more, a "+n more" line. */
  datatype Preview<T> = Preview(shown: seq<T>, moreLine: Option<string>)

  const MoreSkillsSuffix := " more skills"
  const MoreConnectionsSuffix := " more"

  /** `items.slice(0, 4)` and `items.length > 4 && "+{items.length - 4}" + suffix`. */
  function CardPreview<T>(items: seq<T>, suffix: string): (p: Preview<T>)
    ensures p.shown == items[..Min(PreviewSize, |items|)]
    ensures p.moreLine.Some? <==> |items| > PreviewSize
    ensures p.moreLine.Some? ==> var line := p.moreLine.value;
      |line| > |suffix| + 1 && line[0] == '+' && line[|line| - |suffix|..] == suffix
  {
    var more := if |items| > PreviewSize then Some("+" + NatToString(|items| - PreviewSize) + suffix) else None;
    Preview(Slice(items, 0, PreviewSize), more)
  }

  /** The digits of the "+n more" line read back as the number of entries left off. */
  lemma PreviewAccountsForAll<T>(items: seq<T>, suffix: string)
    requires |items| > PreviewSize
    ensures var line := CardPreview(items, suffix).moreLine.value;
      var digits := line[1..|line| - |suffix|];
      (forall k :: 0 <= k < |digits| ==> IsDigit(digits[k]))
      && |CardPreview(items, suffix).shown| + DigitsValue(digits) == |items|
  {
    var n := |items| - PreviewSize;
    var line := CardPreview(items, suffix).moreLine.value;
    assert line == "+" + NatToString(n) + suffix;
    assert line[1..|line| - |suffix|] == NatToString(n);
    NatToStringRoundTrip(n);
  }

  /** The skills card (`+n more skills`) and the connections card (`+n more`). */
  lemma CardsShowFour<T, U>(skills: seq<T>, connections: seq<U>)
    ensures |CardPreview(skills, MoreSkillsSuffix).shown| <= 4
    ensures |CardPreview(connections, MoreConnectionsSuffix).shown| <= 4
    ensures CardPreview(skills, MoreSkillsSuffix).moreLine.Some? <==> |skills| > 4
    ensures CardPreview(connections, MoreConnectionsSuffix).moreLine.Some? <==> |connections| > 4
    ensures |skills| <= 4 ==> CardPreview(skills, MoreSkillsSuffix) == Preview(skills, None)
  {
    assert skills[..|skills|] == skills;
  }
}
