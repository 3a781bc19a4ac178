/** The admin dashboard's response tally (`fetchAllData`): the global count of pending
    responses and, per need, the number of responses and of pending ones. */
module ResponseTally {
  import opened Seqs

  datatype Response = Response(needId: string, status: string)

  datatype Counts = Counts(total: nat, pending: nat)

  const PendingStatus := "pending"

  predicate IsPending(r: Response) {
    r.status == PendingStatus
  }

  /** Whether `r` contributes to the tally kind: every response for totals, only pending
      ones for the pending tally. */
  predicate Counted(r: Response, onlyPending: bool) {
    !onlyPending || IsPending(r)
  }

  /** Responses for `id` (pending ones only when `onlyPending`). */
  function CountFor(rs: seq<Response>, id: string, onlyPending: bool): nat
  {
    if rs == [] then 0
    else
      var last := rs[|rs| - 1];
      CountFor(rs[..|rs| - 1], id, onlyPending) + (if last.needId == id && Counted(last, onlyPending) then 1 else 0)
  }

  /** Responses of the tally kind, whatever their need. */
  function CountAll(rs: seq<Response>, onlyPending: bool): nat
  {
    if rs == [] then 0
    else CountAll(rs[..|rs| - 1], onlyPending) + (if Counted(rs[|rs| - 1], onlyPending) then 1 else 0)
  }

  function NeedIds(rs: seq<Response>): (ids: seq<string>)
    ensures |ids| == |rs|
    ensures forall i :: 0 <= i < |rs| ==> ids[i] == rs[i].needId
  {
    seq(|rs|, i requires 0 <= i < |rs| => rs[i].needId)
  }

  /** The need ids that occur among the responses. */
  function NeedIdSet(rs: seq<Response>): set<string> {
    set i | 0 <= i < |rs| :: rs[i].needId
  }

  /** The pending count is the count of pending responses, however they are grouped. */
  lemma {:induction false} PendingFilterLength(rs: seq<Response>)
    ensures |Filter(rs, IsPending)| == CountAll(rs, true)
    decreases |rs|
  {
    if rs != [] {
      var init, last := rs[..|rs| - 1], rs[|rs| - 1];
      assert rs == init + [last];
      FilterAppend(init, [last], IsPending);
      PendingFilterLength(init);
    }
  }

  /** Per need, pending responses are among all responses. */
  lemma {:induction false} PendingAtMostTotal(rs: seq<Response>, id: string)
    ensures CountFor(rs, id, true) <= CountFor(rs, id, false)
    ensures CountFor(rs, id, false) > 0 <==> id in NeedIdSet(rs)
    decreases |rs|
  {
    if rs != [] {
      var init := rs[..|rs| - 1];
      PendingAtMostTotal(init, id);
      assert NeedIdSet(rs) == NeedIdSet(init) + {rs[|rs| - 1].needId} by {
        forall x ensures x in NeedIdSet(rs) <==> x in NeedIdSet(init) + {rs[|rs| - 1].needId} {
          if x in NeedIdSet(rs) {
            var i :| 0 <= i < |rs| && rs[i].needId == x;
            if i < |rs| - 1 {
              assert init[i].needId == x;
            }
          }
          if x in NeedIdSet(init) {
            var i :| 0 <= i < |init| && init[i].needId == x;
            assert rs[i].needId == x;
          }
        }
      }
    }
  }

  /** The table after the responses `rs` have been tallied. */
  ghost predicate Tallied(rs: seq<Response>, byNeed: map<string, Counts>) {
    && byNeed.Keys == NeedIdSet(rs)
    && (forall id :: id in byNeed ==> byNeed[id] == Counts(CountFor(rs, id, false), CountFor(rs, id, true)))
  }

  /** The table entry for a response's need after it is tallied. */
  function Bumped(byNeed: map<string, Counts>, r: Response): Counts {
    var c := if r.needId in byNeed then byNeed[r.needId] else Counts(0, 0);
    Counts(c.total + 1, if IsPending(r) then c.pending + 1 else c.pending)
  }

  /** Tallying one more response keeps the table in step with the counts. */
  lemma TalliedStep(rs: seq<Response>, r: Response, byNeed: map<string, Counts>)
    requires Tallied(rs, byNeed)
    ensures Tallied(rs + [r], byNeed[r.needId := Bumped(byNeed, r)])
  {
    var rs' := rs + [r];
    assert rs'[..|rs|] == rs && rs'[|rs|] == r;
    PendingAtMostTotal(rs, r.needId);
    assert NeedIdSet(rs') == NeedIdSet(rs) + {r.needId} by {
      forall x ensures x in NeedIdSet(rs') <==> x in NeedIdSet(rs) + {r.needId} {
        PendingAtMostTotal(rs', x);
        PendingAtMostTotal(rs, x);
      }
    }
  }

  /** `responses.forEach`: create `{total: 0, pending: 0}` for an unseen need, bump the
      total, and bump pending for a pending response; the global pending count is the
      length of the pending filter. */
  method GroupResponses(rs: seq<Response>) returns (pendingCount: nat, byNeed: map<string, Counts>)
    ensures pendingCount == CountAll(rs, true)
    ensures byNeed.Keys == NeedIdSet(rs)
    ensures forall id :: id in byNeed ==>
      byNeed[id] == Counts(CountFor(rs, id, false), CountFor(rs, id, true))
  {
    PendingFilterLength(rs);
    pendingCount := |Filter(rs, IsPending)|;
    byNeed := map[];
    assert rs[..0] == [];
    for i := 0 to |rs|
      invariant Tallied(rs[..i], byNeed)
    {
      var r := rs[i];
      assert rs[..i + 1] == rs[..i] + [r];
      TalliedStep(rs[..i], r, byNeed);
      // an unseen need starts from {total: 0, pending: 0}
      var c := if r.needId in byNeed then byNeed[r.needId] else Counts(0, 0);
      c := c.(total := c.total + 1);
      if r.status == PendingStatus {
        c := c.(pending := c.pending + 1);
      }
      assert c == Bumped(byNeed, r);
      byNeed := byNeed[r.needId := c];
    }
    assert rs[..|rs|] == rs;
  }

  // ---------------------------------------------------------------------------
  // Sums over the table

  /** The sum of the per-need tallies over an enumeration of need ids. */
  function SumOver(rs: seq<Response>, keys: seq<string>, onlyPending: bool): nat
  {
    if keys == [] then 0
    else SumOver(rs, keys[..|keys| - 1], onlyPending) + CountFor(rs, keys[|keys| - 1], onlyPending)
  }

  /** Adding one response adds one to the sum over keys that contain its need id once. */
  lemma {:induction false} SumOverStep(rs: seq<Response>, r: Response, keys: seq<string>, onlyPending: bool)
    requires NoDuplicates(keys)
    ensures SumOver(rs + [r], keys, onlyPending) ==
      SumOver(rs, keys, onlyPending) + (if r.needId in keys && Counted(r, onlyPending) then 1 else 0)
    decreases |keys|
  {
    if keys != [] {
      var init, last := keys[..|keys| - 1], keys[|keys| - 1];
      SumOverStep(rs, r, init, onlyPending);
      assert (rs + [r])[..|rs + [r]| - 1] == rs;
      assert r.needId in keys <==> r.needId in init || r.needId == last by {
        assert keys == init + [last];
      }
      assert last !in init;
    }
  }

  /** Every response is counted in the totals. */
  lemma {:induction false} CountAllTotals(rs: seq<Response>)
    ensures CountAll(rs, false) == |rs|
    decreases |rs|
  {
    if rs != [] {
      CountAllTotals(rs[..|rs| - 1]);
    }
  }

  /** A need id no response carries has no count. */
  lemma {:induction false} AbsentIdCountsZero(rs: seq<Response>, id: string, onlyPending: bool)
    requires id !in NeedIds(rs)
    ensures CountFor(rs, id, onlyPending) == 0
    decreases |rs|
  {
    if rs != [] {
      var init := rs[..|rs| - 1];
      assert NeedIds(init) == NeedIds(rs)[..|rs| - 1];
      AbsentIdCountsZero(init, id, onlyPending);
    }
  }

  /** Appending one response adds one to the tally when it is of the tally kind. */
  lemma CountAllSnoc(init: seq<Response>, r: Response, onlyPending: bool)
    ensures CountAll(init + [r], onlyPending) == CountAll(init, onlyPending) + (if Counted(r, onlyPending) then 1 else 0)
  {
    assert (init + [r])[..|init|] == init;
  }

  /** A response for a need already enumerated keeps the sum equal to the tally. */
  lemma SumsStepKnown(init: seq<Response>, r: Response, keys: seq<string>, onlyPending: bool)
    requires NoDuplicates(keys) && r.needId in keys
    requires SumOver(init, keys, onlyPending) == CountAll(init, onlyPending)
    ensures SumOver(init + [r], keys, onlyPending) == CountAll(init + [r], onlyPending)
  {
    SumOverStep(init, r, keys, onlyPending);
    CountAllSnoc(init, r, onlyPending);
  }

  /** A response for a need seen for the first time extends the enumeration by its id. */
  lemma SumsStepNew(init: seq<Response>, r: Response, keys: seq<string>, onlyPending: bool)
    requires NoDuplicates(keys) && r.needId !in keys && r.needId !in NeedIds(init)
    requires SumOver(init, keys, onlyPending) == CountAll(init, onlyPending)
    ensures SumOver(init + [r], keys + [r.needId], onlyPending) == CountAll(init + [r], onlyPending)
  {
    var rs := init + [r];
    SumOverStep(init, r, keys, onlyPending);
    CountAllSnoc(init, r, onlyPending);
    AbsentIdCountsZero(init, r.needId, onlyPending);
    assert rs[..|rs| - 1] == init;
    var keys' := keys + [r.needId];
    assert keys'[..|keys'| - 1] == keys;
  }

  /** One more response keeps the sum over the distinct need ids equal to the tally. */
  lemma SumsStep(init: seq<Response>, r: Response, onlyPending: bool)
    requires SumOver(init, Distinct(NeedIds(init)), onlyPending) == CountAll(init, onlyPending)
    ensures SumOver(init + [r], Distinct(NeedIds(init + [r])), onlyPending) == CountAll(init + [r], onlyPending)
  {
    var keys := Distinct(NeedIds(init));
    assert NeedIds(init + [r]) == NeedIds(init) + [r.needId];
    DistinctSnoc(NeedIds(init), r.needId);
    if r.needId in keys {
      SumsStepKnown(init, r, keys, onlyPending);
    } else {
      SumsStepNew(init, r, keys, onlyPending);
    }
  }

  /** Summing the per-need tallies over the distinct need ids gives the tally over all
      responses. */
  lemma {:induction false} SumsMatchTotals(rs: seq<Response>, onlyPending: bool)
    ensures SumOver(rs, Distinct(NeedIds(rs)), onlyPending) == CountAll(rs, onlyPending)
    decreases |rs|
  {
    if rs != [] {
      var init, r := rs[..|rs| - 1], rs[|rs| - 1];
      SumsMatchTotals(init, onlyPending);
      SumsStep(init, r, onlyPending);
      assert rs == init + [r];
    }
  }

  /** The global pending count equals the sum of the per-need pending counts, and the
      per-need totals add up to the number of responses. */
  lemma TableSums(rs: seq<Response>)
    ensures SumOver(rs, Distinct(NeedIds(rs)), false) == |rs|
    ensures SumOver(rs, Distinct(NeedIds(rs)), true) == |Filter(rs, IsPending)|
    ensures forall id :: id in Distinct(NeedIds(rs)) <==> id in NeedIdSet(rs)
  {
    SumsMatchTotals(rs, false);
    SumsMatchTotals(rs, true);
    CountAllTotals(rs);
    PendingFilterLength(rs);
    forall id ensures id in Distinct(NeedIds(rs)) <==> id in NeedIdSet(rs) {
      if id in NeedIdSet(rs) {
        var i :| 0 <= i < |rs| && rs[i].needId == id;
        assert NeedIds(rs)[i] == id;
      }
    }
  }
}
