/**
 * The session logic of the app component (App.tsx): the roster, the matches and
 * the step, the handlers that change them, the admin export, and the mirroring
 * of every change into storage. Browser dialogs (`confirm`, `prompt`) become
 * boolean inputs, `crypto.randomUUID` a fresh id passed in, `Math.random` the
 * `draws` of the generator, and the 2-second `setTimeout` an explicit event.
 */
module Session {
  import opened Wrappers
  import opened Types
  import opened Strings
  import opened MatchingLogic
  import opened Persistence

  // ---------------------------------------------------------------------------
  // The values the handlers compute

  /**
   * The participant the registration form yields: none when the trimmed name or
   * the trimmed interests are empty; otherwise trimmed fields, the given id, and
   * a receiver hint only when its trimmed text is not empty.
   */
  function Registration(name: string, interests: string, hint: string, id: string): (r: Option<Participant>)
    ensures r.None? <==> AllWhitespace(name) || AllWhitespace(interests)
    ensures r.Some? ==> r.value.id == id && r.value.name == Trim(name) && r.value.interests == Trim(interests)
    ensures r.Some? ==> (r.value.specifiedReceiver.None? <==> AllWhitespace(hint))
    ensures r.Some? && r.value.specifiedReceiver.Some? ==> r.value.specifiedReceiver.value == Trim(hint)
  {
    TrimEmptyIff(name);
    TrimEmptyIff(interests);
    TrimEmptyIff(hint);
    var trimmedName, trimmedInterests, trimmedHint := Trim(name), Trim(interests), Trim(hint);
    if trimmedName == [] || trimmedInterests == [] then None
    else Some(Participant(id, trimmedName, trimmedInterests, if trimmedHint == [] then None else Some(trimmedHint)))
  }

  /** `participants.filter(p => p.id !== id)`. */
  function WithoutId(roster: seq<Participant>, id: string): (r: seq<Participant>)
    ensures |r| <= |roster|
    ensures forall p :: p in r <==> p in roster && p.id != id
  {
    if roster == [] then []
    else (if roster[0].id == id then [] else [roster[0]]) + WithoutId(roster[1..], id)
  }

  /** The filter keeps the original order: filtering a concatenation filters each part. */
  lemma {:induction false} WithoutIdKeepsOrder(a: seq<Participant>, b: seq<Participant>, id: string)
    ensures WithoutId(a + b, id) == WithoutId(a, id) + WithoutId(b, id)
    decreases |a|
  {
    if a == [] {
      assert a + b == b;
    } else {
      assert (a + b)[1..] == a[1..] + b;
      WithoutIdKeepsOrder(a[1..], b, id);
    }
  }

  /** Removing an id that nobody has leaves the roster exactly as it was. */
  lemma {:induction false} WithoutAbsentId(roster: seq<Participant>, id: string)
    requires forall p :: p in roster ==> p.id != id
    ensures WithoutId(roster, id) == roster
    decreases |roster|
  {
    if roster != [] {
      WithoutAbsentId(roster[1..], id);
    }
  }

  /** Removing an id keeps ids distinct. */
  lemma {:induction false} WithoutIdKeepsIdsDistinct(roster: seq<Participant>, id: string)
    requires DistinctIds(roster)
    ensures DistinctIds(WithoutId(roster, id))
    decreases |roster|
  {
    if roster != [] {
      var rest := roster[1..];
      assert DistinctIds(rest) by {
        forall i, j | 0 <= i < |rest| && 0 <= j < |rest| && i != j
          ensures rest[i].id != rest[j].id
        {
          assert rest[i] == roster[i + 1] && rest[j] == roster[j + 1];
        }
      }
      WithoutIdKeepsIdsDistinct(rest, id);
      var tail := WithoutId(rest, id);
      if roster[0].id != id {
        forall p | p in tail
          ensures p.id != roster[0].id
        {
          var k :| 0 <= k < |rest| && rest[k] == p;
          assert roster[k + 1] == p;
        }
        var r := [roster[0]] + tail;
        forall i, j | 0 <= i < |r| && 0 <= j < |r| && i != j
          ensures r[i].id != r[j].id
        {
          if i > 0 && j > 0 {
            assert r[i] == tail[i - 1] && r[j] == tail[j - 1];
          } else if i == 0 {
            assert r[j] in tail;
          } else {
            assert r[i] in tail;
          }
        }
      }
    }
  }

  /** Appending a participant whose id nobody has keeps ids distinct. */
  lemma AppendKeepsIdsDistinct(roster: seq<Participant>, p: Participant)
    requires DistinctIds(roster)
    requires p.id !in Ids(roster)
    ensures DistinctIds(roster + [p])
  {
    var r := roster + [p];
    forall i, j | 0 <= i < |r| && 0 <= j < |r| && i != j
      ensures r[i].id != r[j].id
    {
      if i < |roster| && j < |roster| {
        assert r[i] == roster[i] && r[j] == roster[j];
      } else if i < |roster| {
        assert r[i] in roster && r[i].id in Ids(roster);
      } else {
        assert r[j] in roster && r[j].id in Ids(roster);
      }
    }
  }

  /** One line of the admin export: `santa -> receiver (Gift: receiver's interests)`. */
  function ExportLine(m: Match): (r: string)
    ensures |r| == |m.santa.name| + |m.receiver.name| + |m.receiver.interests| + 13
    ensures '\n' !in m.santa.name && '\n' !in m.receiver.name && '\n' !in m.receiver.interests ==> '\n' !in r
  {
    m.santa.name + " -> " + m.receiver.name + " (Gift: " + m.receiver.interests + ")"
  }

  function ExportLines(matches: seq<Match>): (r: seq<string>)
    ensures |r| == |matches|
  {
    seq(|matches|, k requires 0 <= k < |matches| => ExportLine(matches[k]))
  }

  /** The text `copyAdminResults` puts on the clipboard: the lines joined by newlines. */
  function ExportText(matches: seq<Match>): (r: string)
    ensures matches == [] ==> r == ""
    ensures |matches| == 1 ==> r == ExportLine(matches[0])
  {
    JoinLines(ExportLines(matches))
  }

  /** No name or interests text in the matches holds a line break. */
  predicate SingleLineFields(matches: seq<Match>)
  {
    forall k :: 0 <= k < |matches| ==>
      '\n' !in matches[k].santa.name && '\n' !in matches[k].receiver.name &&
      '\n' !in matches[k].receiver.interests
  }

  /**
   * The export has one line per match, in match order: splitting it at line
   * breaks gives back each match's line, as long as no field holds a line break.
   * With no matches it is empty.
   */
  lemma ExportHasOneLinePerMatch(matches: seq<Match>)
    requires SingleLineFields(matches)
    ensures matches == [] ==> ExportText(matches) == ""
    ensures matches != [] ==> SplitLines(ExportText(matches)) == ExportLines(matches)
    ensures matches != [] ==> |SplitLines(ExportText(matches))| == |matches|
  {
    var lines := ExportLines(matches);
    forall k | 0 <= k < |lines|
      ensures '\n' !in lines[k]
    {
      var m := matches[k];
      assert lines[k] == m.santa.name + (" -> " + (m.receiver.name + (" (Gift: " + (m.receiver.interests + ")"))));
    }
    if matches != [] {
      SplitJoinLines(lines);
    }
  }

  /** How a request to generate ended: too few people, the early-shuffle warning declined, or generated. */
  datatype GenerateOutcome = TooFewParticipants | DeclinedEarly | Generated

  // ---------------------------------------------------------------------------
  // The component's state and handlers

  class App {
    var participants: seq<Participant>
    var matches: seq<Match>
    var currentStep: AppStep
    var isEventReady: bool
    var showAdmin: bool
    /** Reveal timers started by a generation and not yet fired. */
    var pendingReveals: nat
    const storage: Storage

    /** The persisted fields. */
    function State(): Snapshot
      reads this
    {
      Snapshot(participants, matches, currentStep)
    }

    /** The step is one a session can hold, and storage mirrors the persisted fields. */
    ghost predicate Valid()
      reads this, storage
    {
      ValidStep(currentStep) && storage.Contents() == Encode(State())
    }

    /**
     * Mounting: the load effect reads each key on its own, the save effect then
     * writes the loaded state back (so a bad entry is replaced by its default),
     * and the first clock check sets the event gate. No reveal timer survives a reload.
     */
    constructor Mount(storage: Storage, eventReached: bool)
      modifies storage
      ensures Valid() && this.storage == storage
      ensures State() == Load(old(storage.Contents()))
      ensures isEventReady == eventReached && !showAdmin && pendingReveals == 0
    {
      var loaded := Load(storage.Contents());
      participants := loaded.participants;
      matches := loaded.matches;
      currentStep := loaded.step;
      isEventReady := eventReached;
      showAdmin := false;
      pendingReveals := 0;
      this.storage := storage;
      new;
      storage.Save(loaded);
    }

    /** The clock passing the target date, or the developer button: generation is no longer early. */
    method OpenGate()
      requires Valid()
      modifies this
      ensures Valid() && isEventReady
      ensures State() == old(State()) && showAdmin == old(showAdmin) && pendingReveals == old(pendingReveals)
    {
      isEventReady := true;
    }

    /**
     * `addParticipant`: appends the registered participant when the form is
     * valid, otherwise changes nothing. It does not look at the step.
     */
    method AddParticipant(name: string, interests: string, hint: string, freshId: string) returns (added: bool)
      requires Valid()
      modifies this, storage
      ensures Valid()
      ensures added <==> !AllWhitespace(name) && !AllWhitespace(interests)
      ensures participants == if added then old(participants) + [Registration(name, interests, hint, freshId).value]
                              else old(participants)
      ensures matches == old(matches) && currentStep == old(currentStep)
      ensures isEventReady == old(isEventReady) && showAdmin == old(showAdmin) && pendingReveals == old(pendingReveals)
      ensures DistinctIds(old(participants)) && freshId !in Ids(old(participants)) ==> DistinctIds(participants)
    {
      var registered := Registration(name, interests, hint, freshId);
      if registered.None? {
        return false;
      }
      if DistinctIds(participants) && freshId !in Ids(participants) {
        AppendKeepsIdsDistinct(participants, registered.value);
      }
      participants := participants + [registered.value];
      storage.Save(State());
      added := true;
    }

    /**
     * `removeParticipant`: once confirmed, keeps exactly the participants with
     * another id, in order. It does not look at the step.
     */
    method RemoveParticipant(id: string, confirmed: bool)
      requires Valid()
      modifies this, storage
      ensures Valid()
      ensures participants == if confirmed then WithoutId(old(participants), id) else old(participants)
      ensures matches == old(matches) && currentStep == old(currentStep)
      ensures isEventReady == old(isEventReady) && showAdmin == old(showAdmin) && pendingReveals == old(pendingReveals)
      ensures DistinctIds(old(participants)) ==> DistinctIds(participants)
    {
      if confirmed {
        if DistinctIds(participants) {
          WithoutIdKeepsIdsDistinct(participants, id);
        }
        participants := WithoutId(participants, id);
        storage.Save(State());
      }
    }

    /**
     * `handleGenerateMatches`: with fewer than two people, or before the event
     * with the warning declined, nothing changes; otherwise the matches are
     * generated from the roster, the step becomes MATCHING and a reveal timer starts.
     */
    method HandleGenerateMatches(confirmEarly: bool, draws: seq<nat>) returns (outcome: GenerateOutcome)
      requires Valid() && ValidDraws(draws, |participants|)
      modifies this, storage
      ensures Valid()
      ensures outcome == if |old(participants)| < 2 then TooFewParticipants
                         else if !old(isEventReady) && !confirmEarly then DeclinedEarly
                         else Generated
      ensures outcome != Generated ==> State() == old(State()) && pendingReveals == old(pendingReveals)
      ensures outcome == Generated ==>
                matches == Assignment(old(participants), draws) && currentStep == Matching &&
                pendingReveals == old(pendingReveals) + 1
      ensures participants == old(participants)
      ensures isEventReady == old(isEventReady) && showAdmin == old(showAdmin)
    {
      if |participants| < 2 {
        return TooFewParticipants;
      }
      if !isEventReady && !confirmEarly {
        return DeclinedEarly;
      }
      var generated := GenerateMatches(participants, draws);
      matches := generated;
      currentStep := Matching;
      pendingReveals := pendingReveals + 1;
      storage.Save(State());
      outcome := Generated;
    }

    /** A reveal timer fires: the step becomes REVEAL, whatever it was, and nothing else changes. */
    method RevealTimerFired()
      requires Valid() && pendingReveals > 0
      modifies this, storage
      ensures Valid()
      ensures currentStep == Reveal && pendingReveals == old(pendingReveals) - 1
      ensures participants == old(participants) && matches == old(matches)
      ensures isEventReady == old(isEventReady) && showAdmin == old(showAdmin)
    {
      currentStep := Reveal;
      pendingReveals := pendingReveals - 1;
      storage.Save(State());
    }

    /**
     * `resetApp`: once confirmed, drops the matches and returns to SETUP, keeping
     * the roster. A reveal timer still pending is not cancelled.
     */
    method ResetApp(confirmed: bool)
      requires Valid()
      modifies this, storage
      ensures Valid()
      ensures confirmed ==> matches == [] && currentStep == Setup
      ensures !confirmed ==> matches == old(matches) && currentStep == old(currentStep)
      ensures participants == old(participants) && pendingReveals == old(pendingReveals)
      ensures isEventReady == old(isEventReady) && showAdmin == old(showAdmin)
    {
      if confirmed {
        matches := [];
        currentStep := Setup;
        storage.Save(State());
      }
    }

    /** `handleAdminAccess`: the panel opens when the PIN was accepted. */
    method AdminAccess(pinAccepted: bool)
      requires Valid()
      modifies this
      ensures Valid()
      ensures showAdmin == (old(showAdmin) || pinAccepted)
      ensures State() == old(State()) && isEventReady == old(isEventReady) && pendingReveals == old(pendingReveals)
    {
      if pinAccepted {
        showAdmin := true;
      }
    }

    /** The close button of the admin panel. */
    method CloseAdmin()
      requires Valid()
      modifies this
      ensures Valid() && !showAdmin
      ensures State() == old(State()) && isEventReady == old(isEventReady) && pendingReveals == old(pendingReveals)
    {
      showAdmin := false;
    }

    /**
     * `adminReshuffle`: once confirmed, runs the ordinary generation handler, with
     * its size check and its early-event warning, and closes the admin panel
     * whatever that handler did. `None` means the reshuffle was not confirmed.
     */
    method AdminReshuffle(confirmed: bool, confirmEarly: bool, draws: seq<nat>) returns (outcome: Option<GenerateOutcome>)
      requires Valid() && ValidDraws(draws, |participants|)
      modifies this, storage
      ensures Valid()
      ensures !confirmed ==> outcome == None && State() == old(State()) && showAdmin == old(showAdmin) &&
                             pendingReveals == old(pendingReveals)
      ensures confirmed ==> outcome.Some? && !showAdmin
      ensures confirmed ==> outcome.value == if |old(participants)| < 2 then TooFewParticipants
                                             else if !old(isEventReady) && !confirmEarly then DeclinedEarly
                                             else Generated
      ensures outcome == Some(Generated) ==>
                matches == Assignment(old(participants), draws) && currentStep == Matching &&
                pendingReveals == old(pendingReveals) + 1
      ensures outcome.Some? && outcome.value != Generated ==> State() == old(State()) && pendingReveals == old(pendingReveals)
      ensures participants == old(participants) && isEventReady == old(isEventReady)
    {
      if !confirmed {
        return None;
      }
      var generated := HandleGenerateMatches(confirmEarly, draws);
      showAdmin := false;
      outcome := Some(generated);
    }

    /** `copyAdminResults`: the text handed to the clipboard. */
    method CopyAdminResults() returns (text: string)
      requires Valid()
      ensures text == ExportText(matches)
      ensures matches != [] && SingleLineFields(matches) ==> SplitLines(text) == ExportLines(matches)
    {
      if SingleLineFields(matches) {
        ExportHasOneLinePerMatch(matches);
      }
      text := ExportText(matches);
    }
  }
}
