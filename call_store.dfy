/** The call store: a reducer over `State = {calls, filters}` driven by six
    kinds of action, the example data that fills an empty store, and the two
    views derived from the state (the filtered calls and the active tags).
    The generated id and the current time of `add-call` are parameters. */
module CallStore {
  import opened CallTypes
  import opened Text

  const DefaultFilters: CallFilters := CallFilters("", All, All, AllTags, All)

  const DefaultState: State := State([], DefaultFilters)

  datatype Action =
    | AddCall(payload: CallDraft)
    | UpdateStatus(id: string, status: Status)
    | UpdateNotes(id: string, notes: string, followUpAction: Option<string>)
    | Reschedule(id: string, scheduledAt: Option<int>)
    | SetFilters(patch: FilterPatch)
    | Seed(state: State)

  // ---------------------------------------------------------------------
  // Building a call from a draft
  // ---------------------------------------------------------------------

  /** The payload part of a call: everything but `id` and `createdAt`. */
  function DraftOf(c: CallLog): CallDraft
  {
    CallDraft(c.contactName, c.phoneNumber, c.direction, c.status, c.scheduledAt,
              c.durationMinutes, c.tags, c.notes, c.followUpAction, c.priority)
  }

  /** A new call: the draft's fields with the given id and creation time. */
  function NewCall(d: CallDraft, id: string, createdAt: int): (c: CallLog)
    ensures c.id == id && c.createdAt == createdAt
    ensures DraftOf(c) == d
  {
    CallLog(id, d.contactName, d.phoneNumber, d.direction, d.status, createdAt,
            d.scheduledAt, d.durationMinutes, d.tags, d.notes, d.followUpAction, d.priority)
  }

  /** A call is its draft plus its id and creation time, so nothing is lost. */
  lemma NewCallOfDraft(c: CallLog)
    ensures NewCall(DraftOf(c), c.id, c.createdAt) == c
  {
  }

  // ---------------------------------------------------------------------
  // The actions, one by one
  // ---------------------------------------------------------------------

  /** Applies `f` to the call whose id is `id` and leaves every other call as it is, in the same order. */
  function MapMatching(calls: seq<CallLog>, id: string, f: CallLog -> CallLog): (r: seq<CallLog>)
    ensures |r| == |calls|
    ensures forall i :: 0 <= i < |calls| ==> r[i] == if calls[i].id == id then f(calls[i]) else calls[i]
  {
    if calls == [] then []
    else
      var rest := MapMatching(calls[1..], id, f);
      [if calls[0].id == id then f(calls[0]) else calls[0]] + rest
  }

  /** Same length, and every call keeps its id and creation time. */
  predicate KeepsIdentity(before: seq<CallLog>, after: seq<CallLog>)
  {
    && |after| == |before|
    && (forall i :: 0 <= i < |before| ==> after[i].id == before[i].id)
    && (forall i :: 0 <= i < |before| ==> after[i].createdAt == before[i].createdAt)
  }

  lemma KeepsIdentityIds(before: seq<CallLog>, after: seq<CallLog>)
    requires KeepsIdentity(before, after)
    ensures Ids(after) == Ids(before)
  {
  }

  /** A map that touches no call (the id is unknown) gives the input back. */
  lemma MapMatchingUnknown(calls: seq<CallLog>, id: string, f: CallLog -> CallLog)
    requires id !in Ids(calls)
    ensures MapMatching(calls, id, f) == calls
  {
    var r := MapMatching(calls, id, f);
    forall i | 0 <= i < |calls| ensures r[i] == calls[i] {
      assert Ids(calls)[i] == calls[i].id;
    }
  }

  /** `add-call`: the new call goes in front, the old calls follow unchanged. */
  function ReduceAddCall(st: State, d: CallDraft, freshId: string, now: int): (r: State)
    ensures |r.calls| == |st.calls| + 1
    ensures r.calls[0].id == freshId && r.calls[0].createdAt == now
    ensures DraftOf(r.calls[0]) == d
    ensures r.calls[1..] == st.calls
    ensures r.filters == st.filters
  {
    st.(calls := [NewCall(d, freshId, now)] + st.calls)
  }

  /** `update-status`: every call with the id gets the new status, nothing else moves. */
  function ReduceUpdateStatus(st: State, id: string, s: Status): (r: State)
    ensures r.filters == st.filters
    ensures |r.calls| == |st.calls|
    ensures forall i :: 0 <= i < |st.calls| ==>
              r.calls[i] == if st.calls[i].id == id then st.calls[i].(status := s) else st.calls[i]
    ensures forall i :: 0 <= i < |st.calls| && st.calls[i].id == id ==> r.calls[i].status == s
    ensures id !in Ids(st.calls) ==> r == st
    ensures KeepsIdentity(st.calls, r.calls)
  {
    var edit := (c: CallLog) => c.(status := s);
    if id !in Ids(st.calls) then
      MapMatchingUnknown(st.calls, id, edit);
      st.(calls := MapMatching(st.calls, id, edit))
    else
      st.(calls := MapMatching(st.calls, id, edit))
  }

  /** `update-notes`: the notes are always replaced; the follow-up action only
      when one is supplied, otherwise the old one stays. */
  function ReduceUpdateNotes(st: State, id: string, notes: string, followUp: Option<string>): (r: State)
    ensures r.filters == st.filters
    ensures |r.calls| == |st.calls|
    ensures forall i :: 0 <= i < |st.calls| && st.calls[i].id == id ==>
              && r.calls[i].notes == notes
              && r.calls[i].followUpAction == (if followUp.Some? then followUp else st.calls[i].followUpAction)
              && r.calls[i] == st.calls[i].(notes := r.calls[i].notes, followUpAction := r.calls[i].followUpAction)
    ensures forall i :: 0 <= i < |st.calls| && st.calls[i].id != id ==> r.calls[i] == st.calls[i]
    ensures id !in Ids(st.calls) ==> r == st
    ensures KeepsIdentity(st.calls, r.calls)
  {
    var edit := (c: CallLog) =>
      c.(notes := notes, followUpAction := if followUp.Some? then followUp else c.followUpAction);
    if id !in Ids(st.calls) then
      MapMatchingUnknown(st.calls, id, edit);
      st.(calls := MapMatching(st.calls, id, edit))
    else
      st.(calls := MapMatching(st.calls, id, edit))
  }

  /** `reschedule`: the follow-up time becomes exactly the given one, or is cleared. */
  function ReduceReschedule(st: State, id: string, at: Option<int>): (r: State)
    ensures r.filters == st.filters
    ensures |r.calls| == |st.calls|
    ensures forall i :: 0 <= i < |st.calls| ==>
              r.calls[i] == if st.calls[i].id == id then st.calls[i].(scheduledAt := at) else st.calls[i]
    ensures id !in Ids(st.calls) ==> r == st
    ensures KeepsIdentity(st.calls, r.calls)
  {
    var edit := (c: CallLog) => c.(scheduledAt := at);
    if id !in Ids(st.calls) then
      MapMatchingUnknown(st.calls, id, edit);
      st.(calls := MapMatching(st.calls, id, edit))
    else
      st.(calls := MapMatching(st.calls, id, edit))
  }

  function Override<T>(supplied: Option<T>, current: T): T
  {
    if supplied.Some? then supplied.value else current
  }

  /** Overlays the patch on the current filters: each field the patch supplies replaces the current one, and every other field keeps its current value. */
  function MergeFilters(f: CallFilters, p: FilterPatch): (r: CallFilters)
    ensures p.search.Some? ==> r.search == p.search.value
    ensures p.search.None? ==> r.search == f.search
    ensures p.status.Some? ==> r.status == p.status.value
    ensures p.status.None? ==> r.status == f.status
    ensures p.direction.Some? ==> r.direction == p.direction.value
    ensures p.direction.None? ==> r.direction == f.direction
    ensures p.tag.Some? ==> r.tag == p.tag.value
    ensures p.tag.None? ==> r.tag == f.tag
    ensures p.priority.Some? ==> r.priority == p.priority.value
    ensures p.priority.None? ==> r.priority == f.priority
  {
    CallFilters(Override(p.search, f.search), Override(p.status, f.status),
                Override(p.direction, f.direction), Override(p.tag, f.tag),
                Override(p.priority, f.priority))
  }

  const EmptyPatch: FilterPatch := FilterPatch(None, None, None, None, None)

  function FullPatch(g: CallFilters): FilterPatch
  {
    FilterPatch(Some(g.search), Some(g.status), Some(g.direction), Some(g.tag), Some(g.priority))
  }

  /** The later patch wins on every field both supply. */
  function ComposePatch(p: FilterPatch, q: FilterPatch): FilterPatch
  {
    FilterPatch(
      if q.search.Some? then q.search else p.search,
      if q.status.Some? then q.status else p.status,
      if q.direction.Some? then q.direction else p.direction,
      if q.tag.Some? then q.tag else p.tag,
      if q.priority.Some? then q.priority else p.priority)
  }

  /** An empty patch changes nothing, a full patch replaces everything,
      re-applying a patch changes nothing more, and two merges are one merge
      of the combined patch. */
  lemma MergeFiltersLaws(f: CallFilters, p: FilterPatch, q: FilterPatch, g: CallFilters)
    ensures MergeFilters(f, EmptyPatch) == f
    ensures MergeFilters(f, FullPatch(g)) == g
    ensures MergeFilters(MergeFilters(f, p), p) == MergeFilters(f, p)
    ensures MergeFilters(MergeFilters(f, p), q) == MergeFilters(f, ComposePatch(p, q))
  {
  }

  /** `set-filters`: the filters are merged, the calls are untouched. */
  function ReduceSetFilters(st: State, p: FilterPatch): (r: State)
    ensures r.calls == st.calls
    ensures r.filters == MergeFilters(st.filters, p)
  {
    st.(filters := MergeFilters(st.filters, p))
  }

  /** The reducer. Whatever the action, `filters` only change through
      `set-filters` or `seed`, `calls` not through `set-filters`, and the
      three updates keep every call's id and creation time in place. */
  function Reducer(st: State, a: Action, freshId: string, now: int): (r: State)
    ensures !a.SetFilters? && !a.Seed? ==> r.filters == st.filters
    ensures a.SetFilters? ==> r.calls == st.calls
    ensures a.Seed? ==> r == a.state
    ensures a.AddCall? ==> r.calls == [NewCall(a.payload, freshId, now)] + st.calls
    ensures (a.UpdateStatus? || a.UpdateNotes? || a.Reschedule?) ==>
              KeepsIdentity(st.calls, r.calls) && Ids(r.calls) == Ids(st.calls)
  {
    match a
    case Seed(s) => s
    case AddCall(d) => ReduceAddCall(st, d, freshId, now)
    case UpdateStatus(id, s) =>
      var r := ReduceUpdateStatus(st, id, s);
      KeepsIdentityIds(st.calls, r.calls);
      r
    case UpdateNotes(id, notes, fu) =>
      var r := ReduceUpdateNotes(st, id, notes, fu);
      KeepsIdentityIds(st.calls, r.calls);
      r
    case Reschedule(id, at) =>
      var r := ReduceReschedule(st, id, at);
      KeepsIdentityIds(st.calls, r.calls);
      r
    case SetFilters(p) => ReduceSetFilters(st, p)
  }

  /** Ids stay unique through every action, provided the generated id is fresh
      and a seeded state has unique ids itself. */
  lemma ReducerKeepsIdsUnique(st: State, a: Action, freshId: string, now: int)
    requires UniqueIds(st.calls)
    requires a.AddCall? ==> freshId !in Ids(st.calls)
    requires a.Seed? ==> UniqueIds(a.state.calls)
    ensures UniqueIds(Reducer(st, a, freshId, now).calls)
  {
    var r := Reducer(st, a, freshId, now);
    if a.AddCall? {
      forall i, j | 0 <= i < j < |r.calls| ensures r.calls[i].id != r.calls[j].id {
        if i == 0 {
          assert r.calls[j] == st.calls[j - 1];
          assert Ids(st.calls)[j - 1] == st.calls[j - 1].id;
        } else {
          assert r.calls[i] == st.calls[i - 1] && r.calls[j] == st.calls[j - 1];
        }
      }
    } else if a.UpdateStatus? || a.UpdateNotes? || a.Reschedule? {
      forall i, j | 0 <= i < j < |r.calls| ensures r.calls[i].id != r.calls[j].id {
        assert Ids(r.calls)[i] == Ids(st.calls)[i] && Ids(r.calls)[j] == Ids(st.calls)[j];
      }
    }
  }

  /** Adding drafts one after another, each with its own generated id and clock reading. */
  function AddAll(st: State, drafts: seq<CallDraft>, ids: seq<string>, times: seq<int>): (r: State)
    requires |ids| == |drafts| == |times|
    ensures |r.calls| == |st.calls| + |drafts|
    decreases |drafts|
  {
    if drafts == [] then st
    else AddAll(ReduceAddCall(st, drafts[0], ids[0], times[0]), drafts[1..], ids[1..], times[1..])
  }

  function Reverse(s: seq<string>): (r: seq<string>)
    ensures |r| == |s|
    ensures forall i :: 0 <= i < |s| ==> r[i] == s[|s| - 1 - i]
  {
    if s == [] then [] else Reverse(s[1..]) + [s[0]]
  }

  lemma AddCallIds(st: State, d: CallDraft, freshId: string, now: int)
    ensures Ids(ReduceAddCall(st, d, freshId, now).calls) == [freshId] + Ids(st.calls)
  {
    var r := ReduceAddCall(st, d, freshId, now);
    assert forall i :: 1 <= i < |r.calls| ==> r.calls[i] == st.calls[i - 1];
  }

  /** Concatenation of id lists is associative. */
  lemma AppendAssoc(a: seq<string>, b: seq<string>, c: seq<string>)
    ensures a + (b + c) == (a + b) + c
  {
  }

  /** After a run of `add-call`s the ids are the generated ones, newest first,
      followed by the old ones. */
  lemma {:induction false} AddAllIds(st: State, drafts: seq<CallDraft>, ids: seq<string>, times: seq<int>)
    requires |ids| == |drafts| == |times|
    ensures Ids(AddAll(st, drafts, ids, times).calls) == Reverse(ids) + Ids(st.calls)
    decreases |drafts|
  {
    if drafts != [] {
      var st1 := ReduceAddCall(st, drafts[0], ids[0], times[0]);
      var r := AddAll(st1, drafts[1..], ids[1..], times[1..]);
      assert AddAll(st, drafts, ids, times) == r;
      AddAllIds(st1, drafts[1..], ids[1..], times[1..]);
      AddCallIds(st, drafts[0], ids[0], times[0]);
      AppendAssoc(Reverse(ids[1..]), [ids[0]], Ids(st.calls));
      assert Reverse(ids) == Reverse(ids[1..]) + [ids[0]];
    }
  }

  /** The call added last is at position 0. */
  lemma {:induction false} AddAllNewestFirst(st: State, drafts: seq<CallDraft>, ids: seq<string>, times: seq<int>)
    requires |ids| == |drafts| == |times| && drafts != []
    ensures AddAll(st, drafts, ids, times).calls[0] == NewCall(drafts[|drafts| - 1], ids[|ids| - 1], times[|times| - 1])
    decreases |drafts|
  {
    var st1 := ReduceAddCall(st, drafts[0], ids[0], times[0]);
    if |drafts| > 1 {
      AddAllNewestFirst(st1, drafts[1..], ids[1..], times[1..]);
      assert drafts[1..][|drafts| - 2] == drafts[|drafts| - 1];
      assert ids[1..][|ids| - 2] == ids[|ids| - 1];
      assert times[1..][|times| - 2] == times[|times| - 1];
    } else {
      assert AddAll(st1, drafts[1..], ids[1..], times[1..]) == st1;
    }
  }

  /** Creation times never increase from the front of the collection. */
  predicate NewestFirst(calls: seq<CallLog>)
  {
    forall i, j :: 0 <= i < j < |calls| ==> calls[j].createdAt <= calls[i].createdAt
  }

  /** A call created no earlier than every existing one keeps the collection newest first. */
  lemma AddCallNewestFirst(st: State, d: CallDraft, freshId: string, now: int)
    requires NewestFirst(st.calls)
    requires forall i :: 0 <= i < |st.calls| ==> st.calls[i].createdAt <= now
    ensures NewestFirst(ReduceAddCall(st, d, freshId, now).calls)
    ensures forall i :: 0 <= i < |st.calls| + 1 ==> ReduceAddCall(st, d, freshId, now).calls[i].createdAt <= now
  {
    var r := ReduceAddCall(st, d, freshId, now);
    assert forall i :: 1 <= i < |r.calls| ==> r.calls[i] == st.calls[i - 1];
  }

  /** With a clock that never goes back, a run of `add-call`s keeps the
      collection newest first. */
  lemma {:induction false} AddAllKeepsNewestFirst(st: State, drafts: seq<CallDraft>, ids: seq<string>, times: seq<int>)
    requires |ids| == |drafts| == |times|
    requires NewestFirst(st.calls)
    requires forall i, j :: 0 <= i < j < |times| ==> times[i] <= times[j]
    requires forall i, k :: 0 <= i < |st.calls| && 0 <= k < |times| ==> st.calls[i].createdAt <= times[k]
    ensures NewestFirst(AddAll(st, drafts, ids, times).calls)
    decreases |drafts|
  {
    if drafts != [] {
      var st1 := ReduceAddCall(st, drafts[0], ids[0], times[0]);
      AddCallNewestFirst(st, drafts[0], ids[0], times[0]);
      var rest := times[1..];
      assert forall i, j :: 0 <= i < j < |rest| ==> rest[i] <= rest[j] by {
        assert forall i :: 0 <= i < |rest| ==> rest[i] == times[i + 1];
      }
      assert forall i, k :: 0 <= i < |st1.calls| && 0 <= k < |rest| ==> st1.calls[i].createdAt <= rest[k] by {
        assert forall k :: 0 <= k < |rest| ==> times[0] <= rest[k] by {
          assert forall k :: 0 <= k < |rest| ==> rest[k] == times[k + 1];
        }
      }
      AddAllKeepsNewestFirst(st1, drafts[1..], ids[1..], rest);
    }
  }

  lemma UniqueIdsDistinct(calls: seq<CallLog>)
    ensures UniqueIds(calls) <==> Distinct(Ids(calls))
  {
  }

  /** A run of `add-call`s with distinct ids, none of them already in use,
      keeps the ids unique. */
  lemma AddAllKeepsIdsUnique(st: State, drafts: seq<CallDraft>, ids: seq<string>, times: seq<int>)
    requires |ids| == |drafts| == |times|
    requires UniqueIds(st.calls)
    requires Distinct(ids)
    requires forall k :: 0 <= k < |ids| ==> ids[k] !in Ids(st.calls)
    ensures UniqueIds(AddAll(st, drafts, ids, times).calls)
  {
    var r := AddAll(st, drafts, ids, times);
    AddAllIds(st, drafts, ids, times);
    UniqueIdsDistinct(st.calls);
    UniqueIdsDistinct(r.calls);
    var all := Reverse(ids) + Ids(st.calls);
    forall i, j | 0 <= i < j < |all| ensures all[i] != all[j] {
      if j < |ids| {
        assert all[i] == ids[|ids| - 1 - i] && all[j] == ids[|ids| - 1 - j];
      } else if i < |ids| {
        assert all[i] == ids[|ids| - 1 - i];
        assert all[j] == Ids(st.calls)[j - |ids|];
      } else {
        assert all[i] == Ids(st.calls)[i - |ids|] && all[j] == Ids(st.calls)[j - |ids|];
      }
    }
  }

  // ---------------------------------------------------------------------
  // Example data for an empty store
  // ---------------------------------------------------------------------

  /** The three example calls, with ids given and times as offsets from `now`. */
  function ExampleCalls(now: int, id1: string, id2: string, id3: string): (r: seq<CallLog>)
    ensures |r| == 3 && Ids(r) == [id1, id2, id3]
    ensures forall i :: 0 <= i < 3 ==> r[i].createdAt < now
    ensures forall i :: 0 <= i < 3 && r[i].scheduledAt.Some? ==> r[i].scheduledAt.value > now
  {
    [ CallLog(id1, "Priya Sharma", "+91 98765 43210", Incoming, InProgress,
              now - 5 * HourMs, Some(now + 24 * HourMs), Some(12), ["sales", "demo"],
              "Discussed product demo. Needs follow-up deck.",
              Some("Send product deck and pricing breakdown"), High),
      CallLog(id2, "Rahul Gupta", "+91 91234 56789", Outgoing, Scheduled,
              now - 48 * HourMs, Some(now + 6 * HourMs), None, ["support"],
              "Follow-up on support ticket #4829",
              Some("Prepare resolution summary"), Medium),
      CallLog(id3, "Neha Verma", "+91 90123 45678", Incoming, Completed,
              now - 72 * HourMs, None, Some(22), ["vip"],
              "Closed annual renewal. Happy with new features.",
              Some("Schedule QBR in 3 months"), Low) ]
  }

  /** `seedState`: a store with calls is returned as it is; an empty one gets
      the three example calls and keeps its filters. */
  function SeedState(st: State, now: int, id1: string, id2: string, id3: string): (r: State)
    ensures |st.calls| > 0 ==> r == st
    ensures |st.calls| == 0 ==> |r.calls| == 3 && r.filters == st.filters
    ensures |st.calls| == 0 ==> Ids(r.calls) == [id1, id2, id3]
  {
    if |st.calls| > 0 then st else st.(calls := ExampleCalls(now, id1, id2, id3))
  }

  /** The seeded calls have unique ids when the three generated ids differ. */
  lemma SeedStateUniqueIds(st: State, now: int, id1: string, id2: string, id3: string)
    requires UniqueIds(st.calls)
    requires id1 != id2 && id2 != id3 && id1 != id3
    ensures UniqueIds(SeedState(st, now, id1, id2, id3).calls)
  {
    var r := SeedState(st, now, id1, id2, id3);
    if |st.calls| == 0 {
      assert Ids(r.calls) == [id1, id2, id3];
      forall i, j | 0 <= i < j < 3 ensures r.calls[i].id != r.calls[j].id {
        assert r.calls[i].id == Ids(r.calls)[i] && r.calls[j].id == Ids(r.calls)[j];
      }
    }
  }

  // ---------------------------------------------------------------------
  // The filtered view
  // ---------------------------------------------------------------------

  /** The text the search looks in: name, number, notes and tags, space separated. */
  function SearchText(c: CallLog): string
  {
    c.contactName + " " + c.phoneNumber + " " + c.notes + " " + Join(c.tags, ' ')
  }

  /** A call passes the filters when every field that is not "all" matches and
      the lower-cased search occurs in its lower-cased search text. */
  predicate Matches(c: CallLog, f: CallFilters)
  {
    && (f.status.All? || c.status == f.status.value)
    && (f.direction.All? || c.direction == f.direction.value)
    && (f.tag == AllTags || f.tag in c.tags)
    && (f.priority.All? || c.priority == f.priority.value)
    && Contains(Lower(SearchText(c)), Lower(f.search))
  }

  /** `a` is `b` with some elements left out, the rest in their order. */
  predicate IsSubsequence(a: seq<CallLog>, b: seq<CallLog>)
    decreases |b|
  {
    if a == [] then true
    else if b == [] then false
    else (a[0] == b[0] && IsSubsequence(a[1..], b[1..])) || IsSubsequence(a, b[1..])
  }

  /** Leaving out the first element of `b` keeps a subsequence of the rest a subsequence. */
  lemma SubsequenceSkip(a: seq<CallLog>, b: seq<CallLog>)
    requires b != [] && IsSubsequence(a, b[1..])
    ensures IsSubsequence(a, b)
  {
  }

  /** The calls that pass the filters: an order-preserving subsequence that
      keeps every occurrence of a matching call and no other call; when every
      call matches it is the whole collection. */
  function KeepMatching(calls: seq<CallLog>, f: CallFilters): (r: seq<CallLog>)
    ensures IsSubsequence(r, calls)
    ensures forall c :: c in r <==> c in calls && Matches(c, f)
    ensures forall c :: multiset(r)[c] == if Matches(c, f) then multiset(calls)[c] else 0
    ensures (forall i :: 0 <= i < |calls| ==> Matches(calls[i], f)) ==> r == calls
  {
    if calls == [] then []
    else
      var rest := KeepMatching(calls[1..], f);
      assert forall c :: c in calls <==> c == calls[0] || c in calls[1..];
      assert multiset(calls) == multiset{calls[0]} + multiset(calls[1..]) by {
        assert calls == [calls[0]] + calls[1..];
      }
      if Matches(calls[0], f) then
        assert ([calls[0]] + rest)[1..] == rest;
        [calls[0]] + rest
      else
        SubsequenceSkip(rest, calls);
        rest
  }

  function FilteredCalls(st: State): (r: seq<CallLog>)
    ensures IsSubsequence(r, st.calls)
    ensures forall c :: c in r <==> c in st.calls && Matches(c, st.filters)
    ensures forall c :: multiset(r)[c] == if Matches(c, st.filters) then multiset(st.calls)[c] else 0
  {
    KeepMatching(st.calls, st.filters)
  }

  /** With every field "all" and an empty search nothing is filtered out. */
  lemma DefaultFiltersKeepAll(calls: seq<CallLog>)
    ensures KeepMatching(calls, DefaultFilters) == calls
  {
    forall i | 0 <= i < |calls| ensures Matches(calls[i], DefaultFilters) {
      assert Lower(DefaultFilters.search) == [];
      assert [] <= Lower(SearchText(calls[i]));
    }
  }

  /** The search is case-insensitive: lower-casing it first changes nothing. */
  lemma SearchIgnoresCase(c: CallLog, f: CallFilters)
    ensures Matches(c, f.(search := Lower(f.search))) == Matches(c, f)
  {
    LowerIdempotent(f.search);
  }

  // ---------------------------------------------------------------------
  // The active tags
  // ---------------------------------------------------------------------

  /** Every tag of every call. */
  function TagUnion(calls: seq<CallLog>): set<string>
  {
    set c, t | c in calls && t in c.tags :: t
  }

  /** The distinct tags of all calls, collected call by call and tag by tag
      into an insertion-ordered set, then sorted: strictly ascending, and
      holding exactly the tags that occur. */
  method ActiveTags(calls: seq<CallLog>) returns (tags: seq<string>)
    ensures StrictlySorted(tags)
    ensures forall t :: t in tags <==> t in TagUnion(calls)
  {
    var seen: seq<string> := [];
    var i := 0;
    while i < |calls|
      invariant 0 <= i <= |calls|
      invariant Distinct(seen)
      invariant forall t :: t in seen <==> t in TagUnion(calls[..i])
    {
      var j := 0;
      while j < |calls[i].tags|
        invariant 0 <= j <= |calls[i].tags|
        invariant Distinct(seen)
        invariant forall t :: t in seen <==> t in TagUnion(calls[..i]) || t in calls[i].tags[..j]
      {
        var t := calls[i].tags[j];
        if t !in seen {
          seen := seen + [t];
        }
        assert calls[i].tags[..j + 1] == calls[i].tags[..j] + [t];
        j := j + 1;
      }
      assert calls[i].tags[..j] == calls[i].tags;
      assert calls[..i + 1] == calls[..i] + [calls[i]];
      i := i + 1;
    }
    assert calls[..i] == calls;
    tags := SortStrings(seen);
    SortStrictlySorted(seen);
    assert forall t :: t in tags <==> t in multiset(seen);
  }

  // ---------------------------------------------------------------------
  // A worked scenario
  // ---------------------------------------------------------------------

  /** From the empty store: add a new call, filter on "completed" (nothing
      shows), mark the call completed (it shows). */
  lemma AddFilterCompleteScenario(id: string, now: int)
    ensures var d := CallDraft("A", "1", Incoming, New, None, None, [], "", None, Medium);
            var s1 := Reducer(DefaultState, AddCall(d), id, now);
            var s2 := Reducer(s1, SetFilters(EmptyPatch.(status := Some(Only(Completed)))), id, now);
            var s3 := Reducer(s2, UpdateStatus(id, Completed), id, now);
            && s1.calls == [NewCall(d, id, now)]
            && FilteredCalls(s2) == []
            && FilteredCalls(s3) == s3.calls
            && s3.calls == [NewCall(d, id, now).(status := Completed)]
  {
    var d := CallDraft("A", "1", Incoming, New, None, None, [], "", None, Medium);
    var s1 := Reducer(DefaultState, AddCall(d), id, now);
    var s2 := Reducer(s1, SetFilters(EmptyPatch.(status := Some(Only(Completed)))), id, now);
    var s3 := Reducer(s2, UpdateStatus(id, Completed), id, now);
    assert s3.calls[0] == NewCall(d, id, now).(status := Completed);
    assert [] <= Lower(SearchText(s3.calls[0]));
  }
}
