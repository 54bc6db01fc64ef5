/** The phases the controller can command to the signal hardware, and the conflict table. */
module Phases {

  datatype Phase =
    | NsGreen | NsYellow | EwGreen | EwYellow
    | AllRed | FlashingRed
    | PedNsWalk | PedEwWalk
    | PedNsClearance | PedEwClearance
    | EvPreemptNs | EvPreemptEw

  datatype Approach = NorthSouth | EastWest

  predicate IsGreen(p: Phase) {
    p.NsGreen? || p.EwGreen?
  }

  predicate IsWalk(p: Phase) {
    p.PedNsWalk? || p.PedEwWalk?
  }

  function Across(a: Approach): Approach {
    if a.NorthSouth? then EastWest else NorthSouth
  }

  function GreenFor(a: Approach): Phase {
    if a.NorthSouth? then NsGreen else EwGreen
  }

  function YellowFor(a: Approach): Phase {
    if a.NorthSouth? then NsYellow else EwYellow
  }

  /** Vehicles of `a` may drive: its green or its preempt. */
  predicate Serves(p: Phase, a: Approach) {
    p == GreenFor(a) || p == PreemptFor(a)
  }

  function WalkFor(a: Approach): Phase {
    if a.NorthSouth? then PedNsWalk else PedEwWalk
  }

  function ClearanceFor(a: Approach): Phase {
    if a.NorthSouth? then PedNsClearance else PedEwClearance
  }

  function PreemptFor(a: Approach): Phase {
    if a.NorthSouth? then EvPreemptNs else EvPreemptEw
  }

  /** The pairs that must never be commanded together, each listed in one order. */
  predicate ConflictPair(a: Phase, b: Phase) {
    match (a, b)
    case (NsGreen, EwGreen) => true
    case (EvPreemptNs, EwGreen) => true
    case (EvPreemptEw, NsGreen) => true
    case (EvPreemptNs, EvPreemptEw) => true
    case (EvPreemptNs, PedNsWalk) => true
    case (EvPreemptEw, PedEwWalk) => true
    case _ => false
  }

  predicate IsConflicting(a: Phase, b: Phase) {
    ConflictPair(a, b) || ConflictPair(b, a)
  }

  /** What the table says: phases that let crossing approaches drive conflict, and so does the preempt
      of an approach with the walk of that approach; nothing else does. */
  lemma ConflictsExactly(p: Phase, q: Phase)
    ensures IsConflicting(p, q) <==> exists a: Approach :: Clash(p, q, a) || Clash(q, p, a)
  {
    hide IsConflicting, ConflictPair, Clash;
    ConflictsBy(p, q);
    if a: Approach :| Clash(p, q, a) || Clash(q, p, a) {
      assert a == NorthSouth || a == EastWest;
    }
  }

  /** `p` lets `a` drive, and `q` lets the crossing approach drive or is the walk its preempt cuts. */
  predicate Clash(p: Phase, q: Phase, a: Approach) {
    (Serves(p, a) && Serves(q, Across(a))) || (p == PreemptFor(a) && q == WalkFor(a))
  }

  lemma ConflictsBy(p: Phase, q: Phase)
    ensures IsConflicting(p, q) <==>
              Clash(p, q, NorthSouth) || Clash(q, p, NorthSouth) || Clash(p, q, EastWest) || Clash(q, p, EastWest)
  {
    OneWay(p, q);
    OneWay(q, p);
  }

  lemma OneWay(p: Phase, q: Phase)
    ensures ConflictPair(p, q) ==> Clash(p, q, NorthSouth) || Clash(p, q, EastWest)
    ensures Clash(p, q, NorthSouth) || Clash(p, q, EastWest) ==> ConflictPair(p, q) || ConflictPair(q, p)
  {
  }

  /** Each approach has its own phases, and those of the other are different ones. */
  lemma PhasesByApproach(a: Approach)
    ensures (a == NorthSouth <==> GreenFor(a) == NsGreen) && (a == EastWest <==> GreenFor(a) == EwGreen)
    ensures (a == NorthSouth <==> YellowFor(a) == NsYellow) && (a == EastWest <==> YellowFor(a) == EwYellow)
    ensures (a == NorthSouth <==> WalkFor(a) == PedNsWalk) && (a == EastWest <==> WalkFor(a) == PedEwWalk)
    ensures (a == NorthSouth <==> ClearanceFor(a) == PedNsClearance)
    ensures (a == EastWest <==> ClearanceFor(a) == PedEwClearance)
    ensures (a == NorthSouth <==> PreemptFor(a) == EvPreemptNs) && (a == EastWest <==> PreemptFor(a) == EvPreemptEw)
  {
  }

  /** A green and the preempt of the same approach: one continues the other. */
  predicate SameDirection(a: Phase, b: Phase) {
    || (a.NsGreen? && b.EvPreemptNs?) || (a.EvPreemptNs? && b.NsGreen?)
    || (a.EwGreen? && b.EvPreemptEw?) || (a.EvPreemptEw? && b.EwGreen?)
  }

  lemma SameDirectionExactly(p: Phase, q: Phase)
    ensures SameDirection(p, q) <==> exists a: Approach :: Serves(p, a) && Serves(q, a) && p != q
  {
    assert SameDirection(p, q) ==>
      (Serves(p, NorthSouth) && Serves(q, NorthSouth)) || (Serves(p, EastWest) && Serves(q, EastWest));
  }
}
