/**
 * The browser-storage contract of the app (App.tsx, the two effects at lines
 * 55-82): three independent keys, written together after every change and read
 * back one by one at start-up.
 */
module Persistence {
  import opened Wrappers
  import opened Types

  /**
   * The text stored under a JSON key, seen through `JSON.parse`: either the
   * text `JSON.stringify` made of `value`, or text that `JSON.parse` rejects.
   */
  datatype Json<T> = Parses(value: T) | Malformed

  /** What the three keys hold; `None` is a key `getItem` finds absent. */
  datatype Entries = Entries(
    participants: Option<Json<seq<Participant>>>,  // "thaiAngelParticipants"
    matches: Option<Json<seq<Match>>>,             // "thaiAngelMatches"
    step: Option<string>)                          // "thaiAngelStep", the raw enum string

  /** The part of the session that is persisted. */
  datatype Snapshot = Snapshot(participants: seq<Participant>, matches: seq<Match>, step: AppStep)

  /** The session a first visit starts from. */
  const Fresh := Snapshot([], [], Setup)

  /** The browser's local storage, restricted to the app's three keys. */
  class Storage {
    var participantsItem: Option<Json<seq<Participant>>>
    var matchesItem: Option<Json<seq<Match>>>
    var stepItem: Option<string>

    constructor(contents: Entries)
      ensures Contents() == contents
    {
      participantsItem, matchesItem, stepItem := contents.participants, contents.matches, contents.step;
    }

    function Contents(): Entries
      reads this
    {
      Entries(participantsItem, matchesItem, stepItem)
    }

    /** The save effect: each of the three keys is overwritten with the current value. */
    method Save(session: Snapshot)
      modifies this
      ensures Contents() == Encode(session)
    {
      participantsItem := Some(Parses(session.participants));
      matchesItem := Some(Parses(session.matches));
      stepItem := Some(StepName(session.step));
    }
  }

  /** The entries the save effect leaves behind for a session. */
  function Encode(session: Snapshot): (r: Entries)
    ensures r.participants.Some? && r.matches.Some? && r.step.Some?
    ensures ValidStep(session.step) ==> r.step.value != ""
  {
    Entries(Some(Parses(session.participants)), Some(Parses(session.matches)), Some(StepName(session.step)))
  }

  /**
   * `savedStep as AppStep`: a known name becomes its step, any other string is
   * kept as it is, unchecked.
   */
  function CastStep(s: string): (step: AppStep)
    requires s != ""
    ensures StepName(step) == s && ValidStep(step)
  {
    if s == "SETUP" then Setup
    else if s == "MATCHING" then Matching
    else if s == "REVEAL" then Reveal
    else Unrecognized(s)
  }

  /** A JSON key: its parsed value, or the default when it is absent or does not parse. */
  function LoadJson<T>(item: Option<Json<T>>, default: T): (r: T)
    ensures item == Some(Parses(r)) || r == default
    ensures item.Some? && item.value.Parses? ==> r == item.value.value
    ensures item.None? || item == Some(Malformed) ==> r == default
  {
    match item
    case Some(Parses(v)) => v
    case _ => default
  }

  /** The step key: the cast value when it holds a non-empty string, else SETUP. */
  function LoadStep(item: Option<string>): (step: AppStep)
    ensures ValidStep(step)
    ensures item.Some? && item.value != "" ==> StepName(step) == item.value
    ensures item.None? || item == Some("") ==> step == Setup
  {
    match item
    case Some(s) => if s == "" then Setup else CastStep(s)
    case None => Setup
  }

  /** The load effect: each key is read on its own, falling back to that field's default. */
  function Load(entries: Entries): (session: Snapshot)
    ensures ValidStep(session.step)
  {
    Snapshot(
      LoadJson(entries.participants, Fresh.participants),
      LoadJson(entries.matches, Fresh.matches),
      LoadStep(entries.step))
  }

  /** The cast names every step: a valid step read back from its name is the same step. */
  lemma CastStepName(step: AppStep)
    requires ValidStep(step)
    ensures CastStep(StepName(step)) == step
  {
    match step
    case Setup =>
    case Matching =>
    case Reveal =>
    case Unrecognized(raw) =>
  }

  /** Loading what was saved gives back the same roster, matches and step. */
  lemma LoadAfterSave(session: Snapshot)
    requires ValidStep(session.step)
    ensures Load(Encode(session)) == session
  {
    CastStepName(session.step);
  }

  /** A key that is absent or unreadable only costs its own field, which takes its default. */
  lemma BadEntryOnlyResetsItsField(session: Snapshot, bad: Entries)
    requires ValidStep(session.step)
    requires bad.participants in {None, Some(Malformed)}
    requires bad.matches in {None, Some(Malformed)}
    requires bad.step in {None, Some("")}
    ensures Load(Encode(session).(participants := bad.participants)) == session.(participants := [])
    ensures Load(Encode(session).(matches := bad.matches)) == session.(matches := [])
    ensures Load(Encode(session).(step := bad.step)) == session.(step := Setup)
  {
    LoadAfterSave(session);
  }

  /** Start-up then save: loading the storage the start-up rewrote yields the same session again. */
  lemma ReloadIsStable(entries: Entries)
    ensures Load(Encode(Load(entries))) == Load(entries)
  {
    LoadAfterSave(Load(entries));
  }
}
