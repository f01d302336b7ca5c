/** The polls collection as Backend/controllers/pollController.js changes it:
    create, vote and delete. The accounts are read, never written. */
module PollController {
  import opened Common
  import opened Users
  import opened PollModel
  import opened Polls

  /** What the schema demands of a new poll at save: a question, non-empty
      option texts and a known poll type. */
  predicate PollSaves(question: string, texts: seq<string>, pollType: Option<string>)
  {
    question != "" && ParsePollType(pollType).Some? && forall i :: 0 <= i < |texts| ==> texts[i] != ""
  }

  /** The collection invariant as a value: increasing ids below `bound`, every
      poll's tallies agreeing with its ledger. */
  ghost predicate PollsOk(polls: seq<Poll>, bound: nat)
  {
    IdsOrdered(polls, PollId, bound) && forall i :: 0 <= i < |polls| ==> WellFormed(polls[i])
  }

  /** Replacing a poll by a well-formed one under the same id keeps the invariant. */
  lemma PollsOkReplace(polls: seq<Poll>, bound: nat, i: nat, q: Poll)
    requires PollsOk(polls, bound) && i < |polls| && WellFormed(q) && q.id == polls[i].id
    ensures PollsOk(polls[i := q], bound)
  {
    IdsOrderedReplace(polls, PollId, bound, i, q);
  }

  /** A recorded vote keeps the invariant of the whole collection. */
  lemma VoteKeepsPollsOk(polls: seq<Poll>, bound: nat, i: nat, userId: nat, sel: Selection, now: int)
    requires PollsOk(polls, bound) && i < |polls| && Vote(polls[i], userId, sel, now).Voted?
    ensures PollsOk(polls[i := AfterVote(polls[i], Vote(polls[i], userId, sel, now))], bound)
  {
    VoteKeepsWellFormed(polls[i], userId, sel, now);
    PollsOkReplace(polls, bound, i, AfterVote(polls[i], Vote(polls[i], userId, sel, now)));
  }

  const ALREADY_VOTED := Response(BAD_REQUEST, "You have already voted on this poll")
  const POLL_NOT_FOUND := Response(NOT_FOUND, "Poll not found")

  class PollCollection {
    var polls: seq<Poll>
    /** The next document id; ids are never reused. */
    var nextId: nat

    ghost predicate Valid()
      reads this
    {
      PollsOk(polls, nextId)
    }

    constructor ()
      ensures Valid() && polls == [] && nextId == 0
    {
      polls, nextId := [], 0;
    }

    /** POST /polls (`createPoll`): secretaries only; a missing options list
        or a document the schema refuses answers 500. */
    method CreatePoll(users: seq<User>, callerId: nat, question: string, options: Option<seq<string>>,
                      pollType: Option<string>, expiresAt: Option<int>, now: int) returns (resp: Response)
      requires Valid()
      modifies this
      ensures Valid()
      ensures CallerRole(users, callerId).None? ==> resp == ServerError
      ensures CallerRole(users, callerId) == Some(Student) ==> resp == Response(FORBIDDEN, "Only secretaries can create polls")
      ensures CallerRole(users, callerId) == Some(Secretary) && (options.None? || !PollSaves(question, options.value, pollType)) ==>
        resp == ServerError
      ensures resp.status == CREATED <==>
        CallerRole(users, callerId) == Some(Secretary) && options.Some? && PollSaves(question, options.value, pollType)
      ensures resp.status == CREATED ==>
        && resp == Response(CREATED, "Poll created successfully")
        && polls == old(polls) + [NewPoll(old(nextId), question, ParsePollType(pollType).value, options.value, callerId, now, expiresAt)]
        && nextId == old(nextId) + 1
      ensures resp.status != CREATED ==> polls == old(polls) && nextId == old(nextId)
    {
      var role := CallerRole(users, callerId);
      if role.None? {
        return ServerError;
      }
      if role.value != Secretary {
        return Response(FORBIDDEN, "Only secretaries can create polls");
      }
      if options.None? || !PollSaves(question, options.value, pollType) {
        return ServerError;
      }
      var p := NewPoll(nextId, question, ParsePollType(pollType).value, options.value, callerId, now, expiresAt);
      NewPollWellFormed(nextId, question, ParsePollType(pollType).value, options.value, callerId, now, expiresAt);
      IdsOrderedAppend(polls, PollId, nextId, p);
      polls := polls + [p];
      nextId := nextId + 1;
      resp := Response(CREATED, "Poll created successfully");
    }

    /** POST /polls/vote (`votePoll`): any authenticated caller. */
    method VotePoll(callerId: nat, pollId: nat, sel: Selection, now: int) returns (resp: Response)
      requires Valid()
      modifies this
      ensures Valid() && nextId == old(nextId)
      ensures IndexOf(old(polls), PollId, pollId).None? ==> resp == POLL_NOT_FOUND && polls == old(polls)
      ensures var found := IndexOf(old(polls), PollId, pollId);
        found.Some? ==>
          var p := old(polls)[found.value];
          match Vote(p, callerId, sel, now)
          case AlreadyVoted => resp == ALREADY_VOTED && polls == old(polls)
          case InvalidOption(t) => resp == Response(BAD_REQUEST, "Invalid option: " + t) && polls == old(polls)
          case Voted(_, _) =>
            resp == Response(OK, "Vote recorded successfully")
            && polls == old(polls)[found.value := AfterVote(p, Vote(p, callerId, sel, now))]
    {
      var found := IndexOf(polls, PollId, pollId);
      if found.None? {
        return POLL_NOT_FOUND;
      }
      var i := found.value;
      var p := polls[i];
      var outcome := CastVote(p, callerId, sel, now);
      match outcome
      case AlreadyVoted =>
        resp := ALREADY_VOTED;
      case InvalidOption(t) =>
        resp := Response(BAD_REQUEST, "Invalid option: " + t);
      case Voted(_, _) =>
        VoteKeepsPollsOk(polls, nextId, i, callerId, sel, now);
        polls := polls[i := AfterVote(p, outcome)];
        resp := Response(OK, "Vote recorded successfully");
    }

    /** DELETE /polls/:pollId (`deletePoll`): role first, then existence, then
        authorship. */
    method DeletePoll(users: seq<User>, callerId: nat, pollId: nat) returns (resp: Response)
      requires Valid()
      modifies this
      ensures Valid() && nextId == old(nextId)
      ensures CallerRole(users, callerId).None? ==> resp == ServerError
      ensures CallerRole(users, callerId) == Some(Student) ==> resp == Response(FORBIDDEN, "Only secretaries can delete polls")
      ensures CallerRole(users, callerId) == Some(Secretary) && IndexOf(old(polls), PollId, pollId).None? ==> resp == POLL_NOT_FOUND
      ensures var found := IndexOf(old(polls), PollId, pollId);
        CallerRole(users, callerId) == Some(Secretary) && found.Some? && old(polls)[found.value].createdBy != callerId ==>
          resp == Response(FORBIDDEN, "You can only delete polls you created")
      ensures var found := IndexOf(old(polls), PollId, pollId);
        resp.status == OK <==> CallerRole(users, callerId) == Some(Secretary) && found.Some? && old(polls)[found.value].createdBy == callerId
      ensures var found := IndexOf(old(polls), PollId, pollId);
        resp.status == OK ==> resp == Response(OK, "Poll deleted successfully") && polls == RemoveAt(old(polls), found.value)
      ensures resp.status != OK ==> polls == old(polls)
    {
      var role := CallerRole(users, callerId);
      if role.None? {
        return ServerError;
      }
      if role.value != Secretary {
        return Response(FORBIDDEN, "Only secretaries can delete polls");
      }
      var found := IndexOf(polls, PollId, pollId);
      if found.None? {
        return POLL_NOT_FOUND;
      }
      if polls[found.value].createdBy != callerId {
        return Response(FORBIDDEN, "You can only delete polls you created");
      }
      IdsOrderedRemove(polls, PollId, nextId, found.value);
      polls := RemoveAt(polls, found.value);
      resp := Response(OK, "Poll deleted successfully");
    }
  }
}
