/** The Fiat-Shamir transcript as the verifier uses it: an append-only log
    of labelled messages.  A challenge is a function of everything logged
    so far, including the request for the challenge itself; which function
    (the hash behind the transcript) is a parameter of the model. */
module Transcripts {
  import opened Field
  import opened Commitments

  datatype Event =
    | CommitmentAppended(tag: string, commitment: Commitment)
    | ScalarAppended(tag: string, scalar: Scalar)
    | ChallengeDrawn(tag: string)

  class Transcript {
    var log: seq<Event>
    /** Maps a log ending in a challenge request to the challenge. */
    const derive: seq<Event> -> Scalar

    constructor (derive: seq<Event> -> Scalar)
      ensures log == [] && this.derive == derive
    {
      log := [];
      this.derive := derive;
    }

    /** `append_commitment(tag, c)`. */
    method AppendCommitment(tag: string, c: Commitment)
      modifies this
      ensures log == old(log) + [CommitmentAppended(tag, c)]
    {
      log := log + [CommitmentAppended(tag, c)];
    }

    /** `append_scalar(tag, s)`. */
    method AppendScalar(tag: string, s: Scalar)
      modifies this
      ensures log == old(log) + [ScalarAppended(tag, s)]
    {
      log := log + [ScalarAppended(tag, s)];
    }

    /** `challenge_scalar(tag)`: the request is logged and the challenge
        is derived from the whole log, so it binds every earlier message. */
    method ChallengeScalar(tag: string) returns (c: Scalar)
      modifies this
      ensures log == old(log) + [ChallengeDrawn(tag)]
      ensures c == derive(log)
    {
      log := log + [ChallengeDrawn(tag)];
      c := derive(log);
    }
  }
}
