/** The records of the gift exchange (types.ts). */
module Types {
  import opened Wrappers

  /** One registered person; `specifiedReceiver` is stored but no algorithm reads it. */
  datatype Participant = Participant(
    id: string,
    name: string,
    interests: string,
    specifiedReceiver: Option<string>)

  /** One giver -> receiver edge of the exchange. */
  datatype Match = Match(santa: Participant, receiver: Participant, isRevealed: bool)

  /**
   * The session step. The enum has three values; `Unrecognized` holds any other
   * string that a reload cast to the enum without checking it.
   */
  datatype AppStep = Setup | Matching | Reveal | Unrecognized(raw: string)

  /** The string value of each enum member, which is also what storage holds. */
  function StepName(step: AppStep): (r: string)
    ensures ValidStep(step) ==> r != ""
    ensures !step.Unrecognized? ==> r in {"SETUP", "MATCHING", "REVEAL"}
  {
    match step
    case Setup => "SETUP"
    case Matching => "MATCHING"
    case Reveal => "REVEAL"
    case Unrecognized(raw) => raw
  }

  /** A step a session can actually be in: an unrecognized one is a non-empty, unknown string. */
  predicate ValidStep(step: AppStep)
  {
    step.Unrecognized? ==> step.raw !in {"", "SETUP", "MATCHING", "REVEAL"}
  }

  /** No two participants of the roster share an id. */
  predicate DistinctIds(roster: seq<Participant>)
  {
    forall i, j :: 0 <= i < |roster| && 0 <= j < |roster| && i != j ==> roster[i].id != roster[j].id
  }

  function Ids(roster: seq<Participant>): set<string>
  {
    set p | p in roster :: p.id
  }
}
