/** The new-call form: its field values, the payload it hands to the store
    on submit (tags parsed from a comma-separated string, an empty name
    defaulted, empty optional fields absent), and the reset afterwards.
    Parsing the date-time and the number typed into the form is done by code
    outside this model; it enters as the functions `toInstant` and `toMinutes`. */
module Form {
  import opened CallTypes
  import opened Text
  import CallStore

  const UnknownCaller: string := "Unknown caller"

  /** What the form fields hold: free text, except the three selects. */
  datatype FormState = FormState(
    contactName: string,
    phoneNumber: string,
    direction: Direction,
    status: Status,
    scheduledAt: string,
    durationMinutes: string,
    tags: string,
    notes: string,
    followUpAction: string,
    priority: Priority
  )

  const InitialForm: FormState := FormState("", "", Incoming, New, "", "", "", "", "", Medium)

  // ---------------------------------------------------------------------
  // Tags: split on commas, trim each piece, drop the empty ones
  // ---------------------------------------------------------------------

  /** Applies `f` to every piece, keeping their order. */
  function MapStrings(ps: seq<string>, f: string -> string): (r: seq<string>)
    ensures |r| == |ps|
    ensures forall i :: 0 <= i < |ps| ==> r[i] == f(ps[i])
  {
    if ps == [] then [] else [f(ps[0])] + MapStrings(ps[1..], f)
  }

  function TrimEach(ps: seq<string>): (r: seq<string>)
    ensures |r| == |ps|
    ensures forall i :: 0 <= i < |ps| ==> r[i] == Trim(ps[i])
  {
    MapStrings(ps, Trim)
  }

  /** The non-empty pieces, in their order. */
  function DropEmpty(ps: seq<string>): (r: seq<string>)
    ensures forall t :: t in r <==> t in ps && t != []
    ensures (forall i :: 0 <= i < |ps| ==> ps[i] != []) ==> r == ps
  {
    if ps == [] then []
    else
      var rest := DropEmpty(ps[1..]);
      assert forall t :: t in ps <==> t == ps[0] || t in ps[1..];
      if ps[0] == [] then rest else [ps[0]] + rest
  }

  /** Dropping empty pieces works piece by piece: an empty piece disappears,
      any other stays, and the pieces keep their order and number. */
  lemma {:induction false} DropEmptyAppend(a: seq<string>, b: seq<string>)
    ensures DropEmpty(a + b) == DropEmpty(a) + DropEmpty(b)
  {
    if a != [] {
      assert (a + b)[0] == a[0] && (a + b)[1..] == a[1..] + b;
      DropEmptyAppend(a[1..], b);
      if a[0] != [] {
        assert [a[0]] + (DropEmpty(a[1..]) + DropEmpty(b)) == ([a[0]] + DropEmpty(a[1..])) + DropEmpty(b);
      }
    } else {
      assert a + b == b;
    }
  }

  lemma DropEmptySingle(x: string)
    ensures DropEmpty([x]) == if x == [] then [] else [x]
  {
    assert [x][1..] == [];
  }

  lemma {:induction false} MapStringsAppend(a: seq<string>, b: seq<string>, f: string -> string)
    ensures MapStrings(a + b, f) == MapStrings(a, f) + MapStrings(b, f)
  {
    if a != [] {
      assert (a + b)[0] == a[0] && (a + b)[1..] == a[1..] + b;
      MapStringsAppend(a[1..], b, f);
    }
  }

  /** A tag as the form produces it: non-empty, no surrounding white space, no comma. */
  predicate WellFormedTag(t: string)
  {
    t != [] && !IsWhitespace(t[0]) && !IsWhitespace(t[|t| - 1]) && ',' !in t
  }

  function ParseTags(s: string): (r: seq<string>)
    ensures forall t :: t in r ==> WellFormedTag(t)
  {
    var pieces := Split(s, ',');
    var trimmed := TrimEach(pieces);
    var r := DropEmpty(trimmed);
    assert forall t :: t in r ==> WellFormedTag(t) by {
      forall t | t in r ensures WellFormedTag(t) {
        var i :| 0 <= i < |trimmed| && trimmed[i] == t;
        assert pieces[i] in pieces;
        TrimmedPieceWellFormed(pieces[i]);
      }
    }
    r
  }

  /** The tags of text with a comma in it are the tags before the comma followed by the tags after it. */
  lemma ParseTagsComma(p: string, q: string)
    ensures ParseTags(p + [','] + q) == ParseTags(p) + ParseTags(q)
  {
    SplitAppend(p, q, ',');
    MapStringsAppend(Split(p, ','), Split(q, ','), Trim);
    DropEmptyAppend(TrimEach(Split(p, ',')), TrimEach(Split(q, ',')));
  }

  /** Text without a comma gives no tag when it is blank, and its trimmed self otherwise. */
  lemma ParseTagsPiece(p: string)
    requires ',' !in p
    ensures ParseTags(p) == if Blank(p) then [] else [Trim(p)]
  {
    SplitNoSeparator(p, ',');
    assert TrimEach([p]) == [Trim(p)];
    DropEmptySingle(Trim(p));
  }

  lemma TrimmedPieceWellFormed(p: string)
    requires ',' !in p
    ensures Trim(p) != [] ==> WellFormedTag(Trim(p))
  {
  }

  predicate AllBlank(ps: seq<string>)
  {
    forall i :: 0 <= i < |ps| ==> Blank(ps[i])
  }

  /** Only commas and white space. */
  predicate NoTagText(s: string)
  {
    forall i :: 0 <= i < |s| ==> s[i] == ',' || IsWhitespace(s[i])
  }

  lemma {:induction false} SplitAllBlank(s: string)
    ensures AllBlank(Split(s, ',')) <==> NoTagText(s)
    decreases |s|
  {
    if s != [] {
      SplitAllBlank(s[1..]);
      assert NoTagText(s) <==> (s[0] == ',' || IsWhitespace(s[0])) && NoTagText(s[1..]) by {
        assert forall i :: 1 <= i < |s| ==> s[i] == s[1..][i - 1];
      }
      if s[0] == ',' {
        CommaPieceBlank(Split(s[1..], ','));
      } else {
        HeadPieceBlank(s[0], Split(s[1..], ','));
      }
    }
  }

  /** A comma adds an empty, hence blank, first piece. */
  lemma CommaPieceBlank(rest: seq<string>)
    ensures AllBlank([[]] + rest) <==> AllBlank(rest)
  {
    var ps := [[]] + rest;
    if AllBlank(rest) {
      forall i | 0 <= i < |ps| ensures Blank(ps[i]) {
        if i > 0 { assert ps[i] == rest[i - 1]; }
      }
    }
    if AllBlank(ps) {
      forall i | 0 <= i < |rest| ensures Blank(rest[i]) {
        assert ps[i + 1] == rest[i];
      }
    }
  }

  /** Any other character joins the first piece, which stays blank only if the character is white space. */
  lemma HeadPieceBlank(c: char, rest: seq<string>)
    requires |rest| >= 1
    ensures AllBlank([[c] + rest[0]] + rest[1..]) <==> IsWhitespace(c) && AllBlank(rest)
  {
    var head := [c] + rest[0];
    var ps := [head] + rest[1..];
    assert Blank(head) <==> IsWhitespace(c) && Blank(rest[0]) by {
      assert head[0] == c;
      assert forall i :: 1 <= i < |head| ==> head[i] == rest[0][i - 1];
      assert forall j :: 0 <= j < |rest[0]| ==> rest[0][j] == head[j + 1];
    }
    assert ps[0] == head;
    assert forall i :: 1 <= i < |ps| ==> ps[i] == rest[i];
    assert AllBlank(ps) <==> Blank(head) && forall i :: 1 <= i < |rest| ==> Blank(rest[i]);
    assert AllBlank(rest) <==> Blank(rest[0]) && forall i :: 1 <= i < |rest| ==> Blank(rest[i]);
  }

  lemma {:induction false} DropEmptyTrimmedBlank(ps: seq<string>)
    ensures DropEmpty(TrimEach(ps)) == [] <==> AllBlank(ps)
  {
    if ps != [] {
      DropEmptyTrimmedBlank(ps[1..]);
      assert TrimEach(ps)[1..] == TrimEach(ps[1..]);
      assert AllBlank(ps) <==> Blank(ps[0]) && AllBlank(ps[1..]) by {
        assert forall i :: 1 <= i < |ps| ==> ps[i] == ps[1..][i - 1];
      }
    }
  }

  /** No tags come out exactly when the input holds nothing but commas and white space. */
  lemma ParseTagsEmpty(s: string)
    ensures ParseTags(s) == [] <==> NoTagText(s)
  {
    SplitAllBlank(s);
    DropEmptyTrimmedBlank(Split(s, ','));
  }

  lemma TrimWellFormed(t: string)
    requires WellFormedTag(t)
    ensures Trim(t) == t
  {
    assert SkipLeading(t, 0) == 0;
    assert SkipTrailing(t, 0, |t|) == |t|;
    assert t[0..|t|] == t;
  }

  /** Well-formed tags written out with commas between them parse back to themselves. */
  lemma ParseJoinedTags(ts: seq<string>)
    requires forall t :: t in ts ==> WellFormedTag(t)
    ensures ParseTags(Join(ts, ',')) == ts
  {
    if ts == [] {
      assert Split([], ',') == [[]];
      assert TrimEach([[]]) == [[]];
    } else {
      SplitJoin(ts, ',');
      TrimEachWellFormed(ts);
      assert forall i :: 0 <= i < |ts| ==> ts[i] in ts;
    }
  }

  lemma {:induction false} TrimEachWellFormed(ts: seq<string>)
    requires forall t :: t in ts ==> WellFormedTag(t)
    ensures TrimEach(ts) == ts
  {
    if ts != [] {
      TrimWellFormed(ts[0]);
      assert forall t :: t in ts[1..] ==> t in ts;
      TrimEachWellFormed(ts[1..]);
    }
  }

  // ---------------------------------------------------------------------
  // The payload and the form component
  // ---------------------------------------------------------------------

  /** The call the form submits. */
  function Payload(form: FormState, toInstant: string -> int, toMinutes: string -> nat): (p: CallDraft)
    ensures p.contactName != []
    ensures form.contactName != [] ==> p.contactName == form.contactName
    ensures form.contactName == [] ==> p.contactName == UnknownCaller
    ensures p.scheduledAt.None? <==> form.scheduledAt == []
    ensures p.scheduledAt.Some? ==> p.scheduledAt.value == toInstant(form.scheduledAt)
    ensures p.durationMinutes.None? <==> form.durationMinutes == []
    ensures p.durationMinutes.Some? ==> p.durationMinutes.value == toMinutes(form.durationMinutes)
    ensures p.followUpAction.None? <==> form.followUpAction == []
    ensures p.followUpAction.Some? ==> p.followUpAction.value == form.followUpAction
    ensures p.tags == ParseTags(form.tags)
    ensures forall t :: t in p.tags ==> WellFormedTag(t)
    ensures p.tags == [] <==> NoTagText(form.tags)
    ensures && p.phoneNumber == form.phoneNumber && p.direction == form.direction
            && p.status == form.status && p.notes == form.notes && p.priority == form.priority
  {
    ParseTagsEmpty(form.tags);
    CallDraft(
      if form.contactName != [] then form.contactName else UnknownCaller,
      form.phoneNumber,
      form.direction,
      form.status,
      if form.scheduledAt != [] then Some(toInstant(form.scheduledAt)) else None,
      if form.durationMinutes != [] then Some(toMinutes(form.durationMinutes)) else None,
      ParseTags(form.tags),
      form.notes,
      if form.followUpAction != [] then Some(form.followUpAction) else None,
      form.priority)
  }

  /** A submitted form, once added to the store, is a call with a name and clean tags. */
  lemma SubmittedCallWellFormed(st: State, form: FormState, toInstant: string -> int,
                                toMinutes: string -> nat, freshId: string, now: int)
    ensures var c := CallStore.ReduceAddCall(st, Payload(form, toInstant, toMinutes), freshId, now).calls[0];
            c.contactName != [] && forall t :: t in c.tags ==> WellFormedTag(t)
  {
    var p := Payload(form, toInstant, toMinutes);
    var c := CallStore.ReduceAddCall(st, p, freshId, now).calls[0];
    assert CallStore.DraftOf(c) == p;
  }

  /** The form component: its one piece of state is the field values. */
  class CallForm {
    var form: FormState

    constructor ()
      ensures form == InitialForm
    {
      form := InitialForm;
    }

    /** Submitting hands the payload built from the current fields to the
        store and puts every field back to its initial value. */
    method HandleSubmit(toInstant: string -> int, toMinutes: string -> nat) returns (payload: CallDraft)
      modifies this
      ensures payload == Payload(old(form), toInstant, toMinutes)
      ensures form == InitialForm
    {
      payload := Payload(form, toInstant, toMinutes);
      form := InitialForm;
    }
  }
}
