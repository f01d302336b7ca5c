/** Record shapes of Backend/models/Poll.js, and the two counting views of a
    poll that its invariant relates: the option counters and the voter ledger. */
module PollModel {
  import opened Common

  /** `pollType`: informational only, no handler enforces it. */
  datatype PollType = Single | Multiple

  /** `pollType = 'single'` when the request leaves it out, then the schema's
      enum; `None` is a type the save rejects. */
  function ParsePollType(t: Option<string>): (r: Option<PollType>)
    ensures t.None? ==> r == Some(Single)
    ensures t.Some? ==> (r.Some? <==> t.value == "single" || t.value == "multiple")
    ensures t == Some("single") ==> r == Some(Single)
    ensures t == Some("multiple") ==> r == Some(Multiple)
  {
    match t
    case None => Some(Single)
    case Some(s) =>
      if s == "single" then Some(Single)
      else if s == "multiple" then Some(Multiple)
      else None
  }

  /** An option: its text (required) and its counter (default 0). */
  datatype PollOption = PollOption(text: string, votes: int)

  function OptionText(o: PollOption): string { o.text }

  /** A ledger entry: who voted, which option indices, when. */
  datatype Voter = Voter(userId: nat, selectedOptions: seq<nat>, votedAt: int)

  datatype Poll = Poll(
    id: nat,
    question: string,
    pollType: PollType,
    options: seq<PollOption>,
    voters: seq<Voter>,
    createdBy: nat,
    createdAt: int,
    expiresAt: Option<int>)

  function PollId(p: Poll): nat { p.id }

  /** Sum of all option counters. */
  function TotalVotes(opts: seq<PollOption>): int
    decreases |opts|
  {
    if |opts| == 0 then 0 else TotalVotes(opts[..|opts| - 1]) + opts[|opts| - 1].votes
  }

  /** Number of recorded selections over the whole ledger. */
  function TotalSelections(voters: seq<Voter>): nat
    decreases |voters|
  {
    if |voters| == 0 then 0
    else TotalSelections(voters[..|voters| - 1]) + |voters[|voters| - 1].selectedOptions|
  }

  /** How often index `j` occurs in a list of selected indices. */
  function Count(s: seq<nat>, j: nat): nat
    decreases |s|
  {
    if |s| == 0 then 0 else Count(s[..|s| - 1], j) + (if s[|s| - 1] == j then 1 else 0)
  }

  /** How often option `j` was selected over the whole ledger. */
  function Ballots(voters: seq<Voter>, j: nat): nat
    decreases |voters|
  {
    if |voters| == 0 then 0
    else Ballots(voters[..|voters| - 1], j) + Count(voters[|voters| - 1].selectedOptions, j)
  }

  /** A user appears in the ledger at most once. */
  ghost predicate VotedOnce(voters: seq<Voter>)
  {
    forall i, j :: 0 <= i < j < |voters| ==> voters[i].userId != voters[j].userId
  }

  /** The invariant every stored poll keeps: vote-once, ledger indices name
      options, each counter equals the selections of it in the ledger, and so
      the counters add up to the number of recorded selections. */
  ghost predicate WellFormed(p: Poll)
  {
    && VotedOnce(p.voters)
    && (forall i, k :: 0 <= i < |p.voters| && 0 <= k < |p.voters[i].selectedOptions| ==>
          p.voters[i].selectedOptions[k] < |p.options|)
    && (forall j :: 0 <= j < |p.options| ==> p.options[j].votes == Ballots(p.voters, j))
    && TotalVotes(p.options) == TotalSelections(p.voters)
  }
}
