// Participant indexes, shares and errors shared by the core protocol modules.
module Core {
  import opened Scalars
  import opened Wrappers
  import OrderedMap

  // A nonzero `u32`.
  type ParticipantIndex = x: int | 1 <= x < 0x1_0000_0000 witness 1

  // The interpolation point of a participant. The conversion reduces modulo the
  // group order and never fails.
  function ToScalar(p: ParticipantIndex): Scalar {
    Red(p)
  }

  datatype Error =
    | ZeroParticipantIndex
    | DuplicateParticipantIndex(index: int)
    | DuplicateParticipantPublicKey(first: int, second: int)
    | NegatedParticipantPublicKey(first: int, second: int)
    | InvalidIdentityKeyProof(index: int)
    | InvalidThreshold(threshold: nat, participants: nat)
    | NonInvertibleDenominator
    | InvalidEncoding
    | EmptyCommitment
    | InvalidCommitmentDegree(expected: nat, actual: nat)
    | SessionMismatch
    | RegistryMismatch
    | IdentityKeyMismatch
    | UnknownParticipant(index: int)
    | DealerKeyMismatch(mapKey: int, messageDealer: int)
    | PrivateShareParticipantMismatch(want: int, got: int)
    | MissingDealing(index: int)
    | MissingShare(index: int)
    | UnexpectedShare(index: int)
    | ProofVerificationFailed
    | DealerProofVerificationFailed(index: int)
    | CommitmentVerificationFailed

  datatype Share = Share(participant: ParticipantIndex, value: Scalar)

  function Ascending(keys: set<ParticipantIndex>): (ps: seq<ParticipantIndex>)
    ensures |ps| == |keys|
  {
    OrderedMap.SortedFacts(keys);
    var ps := OrderedMap.Sorted(keys);
    assert forall i :: 0 <= i < |ps| ==> ps[i] in ps;
    ps
  }

  function FoldedInOrder(keys: set<ParticipantIndex>, n: nat): (ps: seq<ParticipantIndex>)
    ensures |ps| == |keys|
    decreases n
  {
    if n == 0 then Ascending(keys) else FoldedInOrder(keys, n - 1)
  }

  // A map's keys in the order it iterates over them; `InOrderFacts` says what it is.
  function InOrder(keys: set<ParticipantIndex>): (ps: seq<ParticipantIndex>)
    ensures |ps| == |keys|
  {
    FoldedInOrder(keys, q)
  }

  lemma UnfoldInOrder(keys: set<ParticipantIndex>, n: nat)
    ensures FoldedInOrder(keys, n) == Ascending(keys)
    decreases n
  {
  }

  lemma InOrderIncreasing(keys: set<ParticipantIndex>)
    ensures OrderedMap.Increasing(InOrder(keys))
  {
    UnfoldInOrder(keys, q);
    OrderedMap.SortedFacts(keys);
  }

  lemma InOrderFacts(keys: set<ParticipantIndex>)
    ensures forall p :: p in InOrder(keys) <==> p in keys
  {
    UnfoldInOrder(keys, q);
    OrderedMap.SortedFacts(keys);
  }
}
