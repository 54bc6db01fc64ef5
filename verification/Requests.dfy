/** The messages the controller accepts and the gates they pass before they count. */
module Requests {
  import opened Options
  import opened Phases

  /** What parsing a raw message yields: a schema error, or a typed message. */
  datatype Raw<+T> = Malformed(error: SchemaError) | Parsed(message: T)

  datatype SchemaError = MissingField | BadType | UnknownValue | EmptyTransponder

  datatype Verdict =
    | Ok
    | Schema(error: SchemaError)
    | IntersectionMismatch
    | NonMonotonicId
    | FutureTimestamp
    | Expired
    | SignatureInvalid

  datatype Decision = Decision(
    decisionId: int,
    intersectionId: int,
    producerTimestamp: int,
    validUntil: int,
    commandedPhase: Phase
  )

  datatype Priority = FireRescue | Ambulance | Police | Transit

  datatype PreemptRequest = PreemptRequest(
    intersectionId: int,
    approach: Approach,
    priority: Priority,
    validUntil: int,
    producerTimestamp: int
  )

  datatype PedCall = PedCall(
    intersectionId: int,
    approach: Approach,
    accessibility: bool,
    producerTimestamp: int,
    validUntil: int
  )

  /** The acceptance gate for decisions. The controller passes no signature verifier, so
      requiring a signature rejects everything. The first failing gate names the verdict. */
  function ValidateDecision(m: Decision, intersection: int, lastId: Option<int>, now: int,
                            skew: int, signatureRequired: bool): (v: Verdict)
    ensures v.Ok? <==>
            && m.intersectionId == intersection
            && (lastId.Some? ==> lastId.value < m.decisionId)
            && m.producerTimestamp <= now + skew
            && now < m.validUntil
            && !signatureRequired
  {
    if m.intersectionId != intersection then IntersectionMismatch
    else if lastId.Some? && m.decisionId <= lastId.value then NonMonotonicId
    else if m.producerTimestamp > now + skew then FutureTimestamp
    else if m.validUntil <= now then Expired
    else if signatureRequired then SignatureInvalid
    else Ok
  }

  function Rank(p: Priority): nat {
    match p
    case FireRescue => 3
    case Ambulance => 2
    case Police => 1
    case Transit => 0
  }

  /** Preempts and pedestrian calls share one gate: addressed here, and not yet expired. */
  function ValidateTimed(messageIntersection: int, validUntil: int, intersection: int, now: int): (v: Verdict)
    ensures v.Ok? <==> messageIntersection == intersection && now < validUntil
  {
    if messageIntersection != intersection then IntersectionMismatch
    else if validUntil <= now then Expired
    else Ok
  }

  /** A refusal names a gate that fails, and every gate before that one passes. */
  lemma RefusalNamesFirstFailure(m: Decision, intersection: int, lastId: Option<int>, now: int, skew: int,
                                 signatureRequired: bool)
    ensures var v := ValidateDecision(m, intersection, lastId, now, skew, signatureRequired);
            var addressed := m.intersectionId == intersection;
            var newer := lastId.None? || lastId.value < m.decisionId;
            var past := m.producerTimestamp <= now + skew;
            && (v == IntersectionMismatch <==> !addressed)
            && (v == NonMonotonicId <==> addressed && !newer)
            && (v == FutureTimestamp <==> addressed && newer && !past)
            && (v == Expired <==> addressed && newer && past && m.validUntil <= now)
            && (v == SignatureInvalid <==> addressed && newer && past && now < m.validUntil && signatureRequired)
            && (var t := ValidateTimed(m.intersectionId, m.validUntil, intersection, now);
                (t == IntersectionMismatch <==> !addressed) && (t == Expired <==> addressed && m.validUntil <= now))
  {
  }
}
