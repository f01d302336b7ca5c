/** The logic of Backend/controllers/pollController.js that does not touch the
    store: creating the option list, resolving option texts, counting the
    ballot, the outcome of a vote, and the properties these keep. */
module Polls {
  import opened Common
  import opened PollModel

  /** `options.map(opt => ({ text: opt, votes: 0 }))`: same order, no votes. */
  function NewOptions(texts: seq<string>): (r: seq<PollOption>)
    ensures |r| == |texts|
    ensures forall i :: 0 <= i < |texts| ==> r[i] == PollOption(texts[i], 0)
  {
    seq(|texts|, i requires 0 <= i < |texts| => PollOption(texts[i], 0))
  }

  /** The poll `createPoll` stores: no voters yet, created by the caller. */
  function NewPoll(id: nat, question: string, pollType: PollType, texts: seq<string>,
                   createdBy: nat, now: int, expiresAt: Option<int>): Poll
  {
    Poll(id, question, pollType, NewOptions(texts), [], createdBy, now, expiresAt)
  }

  lemma {:induction false} ZeroVotesTotal(opts: seq<PollOption>)
    requires forall i :: 0 <= i < |opts| ==> opts[i].votes == 0
    ensures TotalVotes(opts) == 0
    decreases |opts|
  {
    if |opts| > 0 {
      ZeroVotesTotal(opts[..|opts| - 1]);
    }
  }

  /** A freshly created poll satisfies the poll invariant. */
  lemma NewPollWellFormed(id: nat, question: string, pollType: PollType, texts: seq<string>,
                          createdBy: nat, now: int, expiresAt: Option<int>)
    ensures WellFormed(NewPoll(id, question, pollType, texts, createdBy, now, expiresAt))
  {
    ZeroVotesTotal(NewOptions(texts));
  }

  /** The request's `selectedOptions`: a list, or a single value. */
  datatype Selection = Many(texts: seq<string>) | One(text: string)

  /** `Array.isArray(selectedOptions) ? selectedOptions : [selectedOptions]`. */
  function Texts(sel: Selection): (r: seq<string>)
    ensures sel.One? ==> r == [sel.text]
    ensures sel.Many? ==> r == sel.texts
  {
    match sel
    case Many(ts) => ts
    case One(t) => [t]
  }

  /** `poll.options.findIndex(opt => opt.text === optionText)`: the FIRST option
      carrying that text. */
  function FindOption(opts: seq<PollOption>, text: string): (r: Option<nat>)
    ensures r.Some? ==> r.value < |opts| && opts[r.value].text == text
    ensures r.Some? ==> forall j :: 0 <= j < r.value ==> opts[j].text != text
    ensures r.None? <==> forall j :: 0 <= j < |opts| ==> opts[j].text != text
  {
    assert forall j :: 0 <= j < |opts| ==> OptionText(opts[j]) == opts[j].text;
    IndexOf(opts, OptionText, text)
  }

  /** Result of turning option texts into indices: all of them, or the first
      text that names no option. */
  datatype Resolution = Resolved(indices: seq<nat>) | Unknown(text: string)

  /** The resolution loop of `votePoll`, as a definition. */
  function Resolve(opts: seq<PollOption>, texts: seq<string>): (r: Resolution)
    ensures r.Resolved? <==> forall k :: 0 <= k < |texts| ==> FindOption(opts, texts[k]).Some?
    ensures r.Resolved? ==> |r.indices| == |texts|
    ensures r.Resolved? ==> forall k :: 0 <= k < |texts| ==> FindOption(opts, texts[k]) == Some(r.indices[k])
    ensures r.Unknown? ==> exists p :: 0 <= p < |texts| && texts[p] == r.text && FindOption(opts, texts[p]).None?
                                       && forall k :: 0 <= k < p ==> FindOption(opts, texts[k]).Some?
    decreases |texts|
  {
    if |texts| == 0 then Resolved([])
    else
      var n := |texts| - 1;
      assert forall k :: 0 <= k < n ==> texts[..n][k] == texts[k];
      match Resolve(opts, texts[..n])
      case Unknown(t) => Unknown(t)
      case Resolved(idx) =>
        match FindOption(opts, texts[n])
        case None => Unknown(texts[n])
        case Some(i) => Resolved(idx + [i])
  }

  /** Every resolved index names an option. */
  lemma ResolvedInRange(opts: seq<PollOption>, texts: seq<string>)
    requires Resolve(opts, texts).Resolved?
    ensures forall k :: 0 <= k < |texts| ==> Resolve(opts, texts).indices[k] < |opts|
  {
    var idx := Resolve(opts, texts).indices;
    forall k | 0 <= k < |texts| ensures idx[k] < |opts| {
      assert FindOption(opts, texts[k]) == Some(idx[k]);
    }
  }

  /** One step of the definition: a failed prefix stays failed one text longer. */
  lemma UnknownStep(opts: seq<PollOption>, texts: seq<string>)
    requires |texts| > 0 && Resolve(opts, texts[..|texts| - 1]).Unknown?
    ensures Resolve(opts, texts) == Resolve(opts, texts[..|texts| - 1])
  {
  }

  /** Once a prefix of the texts fails, the whole list fails on the same text:
      no later text is looked at. */
  lemma UnknownIsFinal(opts: seq<PollOption>, texts: seq<string>, n: nat)
    requires n <= |texts| && Resolve(opts, texts[..n]).Unknown?
    ensures Resolve(opts, texts) == Resolve(opts, texts[..n])
  {
    var k := n;
    while k < |texts|
      invariant n <= k <= |texts|
      invariant Resolve(opts, texts[..k]) == Resolve(opts, texts[..n])
    {
      assert texts[..k + 1][..k] == texts[..k];
      UnknownStep(opts, texts[..k + 1]);
      k := k + 1;
    }
    assert texts[..k] == texts;
  }

  /** The resolution loop (pollController.js, `for (const optionText of
      optionsToVote)`): it stops at the first text that names no option. */
  method ResolveOptions(opts: seq<PollOption>, texts: seq<string>) returns (r: Resolution)
    ensures r == Resolve(opts, texts)
  {
    var indices: seq<nat> := [];
    var i := 0;
    while i < |texts|
      invariant 0 <= i <= |texts|
      invariant Resolve(opts, texts[..i]) == Resolved(indices)
    {
      var index := FindOption(opts, texts[i]);
      assert texts[..i + 1][..i] == texts[..i];
      if index.None? {
        UnknownIsFinal(opts, texts, i + 1);
        return Unknown(texts[i]);
      }
      indices := indices + [index.value];
      i := i + 1;
    }
    assert texts[..i] == texts;
    r := Resolved(indices);
  }

  /** One `votes += 1` on option `k`. */
  function Bump(opts: seq<PollOption>, k: nat): (r: seq<PollOption>)
    requires k < |opts|
  {
    opts[k := opts[k].(votes := opts[k].votes + 1)]
  }

  lemma {:induction false} BumpTotal(opts: seq<PollOption>, k: nat)
    requires k < |opts|
    ensures TotalVotes(Bump(opts, k)) == TotalVotes(opts) + 1
    decreases |opts|
  {
    var n := |opts| - 1;
    var b := Bump(opts, k);
    if k == n {
      assert b[..n] == opts[..n];
    } else {
      assert b[..n] == Bump(opts[..n], k);
      BumpTotal(opts[..n], k);
    }
  }

  /** The counters after every index of the ballot has been counted once,
      in order. */
  function Tally(opts: seq<PollOption>, indices: seq<nat>): (r: seq<PollOption>)
    requires forall k :: 0 <= k < |indices| ==> indices[k] < |opts|
    ensures |r| == |opts|
    ensures forall j :: 0 <= j < |opts| ==> r[j].text == opts[j].text
    ensures forall j :: 0 <= j < |opts| ==> r[j].votes == opts[j].votes + Count(indices, j)
    ensures TotalVotes(r) == TotalVotes(opts) + |indices|
    decreases |indices|
  {
    if |indices| == 0 then opts
    else
      var n := |indices| - 1;
      var before := Tally(opts, indices[..n]);
      BumpTotal(before, indices[n]);
      Bump(before, indices[n])
  }

  /** The increment loop (`for (const optionIndex of optionIndices)
      poll.options[optionIndex].votes += 1`). */
  method IncrementVotes(opts: seq<PollOption>, indices: seq<nat>) returns (r: seq<PollOption>)
    requires forall k :: 0 <= k < |indices| ==> indices[k] < |opts|
    ensures r == Tally(opts, indices)
  {
    r := opts;
    var i := 0;
    while i < |indices|
      invariant 0 <= i <= |indices|
      invariant r == Tally(opts, indices[..i])
    {
      assert indices[..i + 1][..i] == indices[..i];
      var k := indices[i];
      r := r[k := r[k].(votes := r[k].votes + 1)];
      i := i + 1;
    }
    assert indices[..i] == indices;
  }

  function VoterId(v: Voter): nat { v.userId }

  /** `poll.voters.some(voter => voter.userId === userId)`: true exactly when
      some ledger entry is the caller's. */
  function HasVoted(p: Poll, userId: nat): (b: bool)
    ensures b <==> exists i :: 0 <= i < |p.voters| && p.voters[i].userId == userId
  {
    assert forall j :: 0 <= j < |p.voters| ==> VoterId(p.voters[j]) == p.voters[j].userId;
    IndexOf(p.voters, VoterId, userId).Some?
  }

  /** What a vote does to an existing poll. */
  datatype VoteOutcome =
    | AlreadyVoted
    | InvalidOption(text: string)
    | Voted(options: seq<PollOption>, voters: seq<Voter>)

  /** The outcome of `votePoll` on a poll that exists: a second vote is refused,
      then the texts are resolved all-or-nothing, then the counters and the
      ledger change together. */
  function Vote(p: Poll, userId: nat, sel: Selection, now: int): (r: VoteOutcome)
    ensures HasVoted(p, userId) ==> r == AlreadyVoted
    ensures r.Voted? <==> !HasVoted(p, userId) && forall t :: t in Texts(sel) ==> FindOption(p.options, t).Some?
    ensures r.InvalidOption? ==> r.text in Texts(sel) && FindOption(p.options, r.text).None?
    ensures r.InvalidOption? ==> Resolve(p.options, Texts(sel)) == Unknown(r.text)
    ensures r.Voted? ==>
      && |r.options| == |p.options| && |r.voters| == |p.voters| + 1
      && r.voters[..|p.voters|] == p.voters && r.voters[|p.voters|].userId == userId
      && |r.voters[|p.voters|].selectedOptions| == |Texts(sel)|
  {
    if HasVoted(p, userId) then AlreadyVoted
    else
      var texts := Texts(sel);
      assert forall t :: t in texts <==> exists k :: 0 <= k < |texts| && texts[k] == t;
      match Resolve(p.options, texts)
      case Unknown(t) => InvalidOption(t)
      case Resolved(indices) =>
        ResolvedInRange(p.options, texts);
        var voters := p.voters + [Voter(userId, indices, now)];
        assert voters[..|p.voters|] == p.voters;
        Voted(Tally(p.options, indices), voters)
  }

  /** The body of `votePoll` after the poll is found: the duplicate check, the
      option lookup loop, then the vote-increment loop and the ledger entry. */
  method CastVote(p: Poll, userId: nat, sel: Selection, now: int) returns (r: VoteOutcome)
    ensures r == Vote(p, userId, sel, now)
  {
    if HasVoted(p, userId) {
      return AlreadyVoted;
    }
    var texts := Texts(sel);
    var resolution := ResolveOptions(p.options, texts);
    if resolution.Unknown? {
      return InvalidOption(resolution.text);
    }
    ResolvedInRange(p.options, texts);
    var options := IncrementVotes(p.options, resolution.indices);
    r := Voted(options, p.voters + [Voter(userId, resolution.indices, now)]);
  }

  /** The poll after a successful vote. */
  function AfterVote(p: Poll, r: VoteOutcome): Poll
    requires r.Voted?
  {
    p.(options := r.options, voters := r.voters)
  }

  lemma BallotsAppend(voters: seq<Voter>, v: Voter, j: nat)
    ensures Ballots(voters + [v], j) == Ballots(voters, j) + Count(v.selectedOptions, j)
  {
    assert (voters + [v])[..|voters|] == voters;
  }

  lemma SelectionsAppend(voters: seq<Voter>, v: Voter)
    ensures TotalSelections(voters + [v]) == TotalSelections(voters) + |v.selectedOptions|
  {
    assert (voters + [v])[..|voters|] == voters;
  }

  /** Appending a ballot of a new voter, and counting it, keeps the poll
      invariant. */
  lemma BallotKeepsWellFormed(p: Poll, v: Voter)
    requires WellFormed(p)
    requires forall i :: 0 <= i < |p.voters| ==> p.voters[i].userId != v.userId
    requires forall k :: 0 <= k < |v.selectedOptions| ==> v.selectedOptions[k] < |p.options|
    ensures WellFormed(p.(options := Tally(p.options, v.selectedOptions), voters := p.voters + [v]))
  {
    var q := p.(options := Tally(p.options, v.selectedOptions), voters := p.voters + [v]);
    forall j | 0 <= j < |q.options| ensures q.options[j].votes == Ballots(q.voters, j) {
      BallotsAppend(p.voters, v, j);
    }
    SelectionsAppend(p.voters, v);
    forall i, k | 0 <= i < |q.voters| && 0 <= k < |q.voters[i].selectedOptions|
      ensures q.voters[i].selectedOptions[k] < |q.options|
    {
      if i == |p.voters| {
        assert q.voters[i] == v;
      } else {
        assert q.voters[i] == p.voters[i];
      }
    }
    forall i, j | 0 <= i < j < |q.voters| ensures q.voters[i].userId != q.voters[j].userId {
      if j == |p.voters| {
        assert q.voters[i] == p.voters[i];
      }
    }
  }

  /** A successful vote keeps the poll invariant: the voter was not yet in the
      ledger, and each counter grows by exactly the selections of it. */
  lemma VoteKeepsWellFormed(p: Poll, userId: nat, sel: Selection, now: int)
    requires WellFormed(p)
    requires Vote(p, userId, sel, now).Voted?
    ensures WellFormed(AfterVote(p, Vote(p, userId, sel, now)))
  {
    var texts := Texts(sel);
    var indices := Resolve(p.options, texts).indices;
    ResolvedInRange(p.options, texts);
    var v := Voter(userId, indices, now);
    BallotKeepsWellFormed(p, v);
    assert AfterVote(p, Vote(p, userId, sel, now)) == p.(options := Tally(p.options, indices), voters := p.voters + [v]);
  }


  /** On success each option's counter grows by the number of times the
      ballot names it, and the one new ledger entry records the caller, the
      resolved indices and the time. */
  lemma VoteCountsEachSelection(p: Poll, userId: nat, sel: Selection, now: int, j: nat)
    requires Vote(p, userId, sel, now).Voted?
    requires j < |p.options|
    ensures var r := Vote(p, userId, sel, now);
            var indices := Resolve(p.options, Texts(sel)).indices;
            && r.options[j] == PollOption(p.options[j].text, p.options[j].votes + Count(indices, j))
            && r.voters == p.voters + [Voter(userId, indices, now)]
  {
  }

  /** Once recorded, the same user is refused a second time, whatever they select. */
  lemma SecondVoteRefused(p: Poll, userId: nat, sel: Selection, sel': Selection, now: int, later: int)
    requires Vote(p, userId, sel, now).Voted?
    ensures Vote(AfterVote(p, Vote(p, userId, sel, now)), userId, sel', later) == AlreadyVoted
  {
    var q := AfterVote(p, Vote(p, userId, sel, now));
    assert q.voters[|p.voters|].userId == userId;
  }

  /** `pollType` and `expiresAt` play no part in a vote. */
  lemma VoteIgnoresTypeAndExpiry(p: Poll, t: PollType, e: Option<int>, userId: nat, sel: Selection, now: int)
    ensures Vote(p.(pollType := t, expiresAt := e), userId, sel, now) == Vote(p, userId, sel, now)
  {
  }

  /** GET /polls: every poll with its options as `{ text, votes }`; the
      `populate` of the creator is not modelled. */
  function ListPolls(polls: seq<Poll>): (r: seq<Poll>)
    ensures |r| == |polls|
    ensures forall i :: 0 <= i < |polls| ==> r[i].options == polls[i].options && r[i].id == polls[i].id
  {
    polls
  }

  /** A 'single' poll with options A and B, voted "B", lists B with one vote,
      A with none, and one ledger entry; a second ballot naming both options
      is accepted as well, since the type is not enforced. */
  lemma SinglePollScenario(id: nat, secretary: nat, student: nat, other: nat, now: int)
    requires student != other
    ensures var p := NewPoll(id, "Q", Single, ["A", "B"], secretary, now, None);
            var r := Vote(p, student, One("B"), now);
            && r.Voted?
            && var q := AfterVote(p, r);
               && ListPolls([q])[0].options == [PollOption("A", 0), PollOption("B", 1)]
               && |q.voters| == 1
               && Vote(q, other, Many(["A", "B"]), now).Voted?
  {
    var p := NewPoll(id, "Q", Single, ["A", "B"], secretary, now, None);
    FirstVote(p, student, now);
    var q := p.(options := [PollOption("A", 0), PollOption("B", 1)], voters := [Voter(student, [1], now)]);
    assert AfterVote(p, Vote(p, student, One("B"), now)) == q;
    SecondBallot(q, other, now);
  }

  /** The first vote for "B" in a fresh A, B poll counts option 1 once. */
  lemma FirstVote(p: Poll, student: nat, now: int)
    requires p.options == [PollOption("A", 0), PollOption("B", 0)] && p.voters == []
    ensures Vote(p, student, One("B"), now) ==
            Voted([PollOption("A", 0), PollOption("B", 1)], [Voter(student, [1], now)])
  {
    var initial := [PollOption("A", 0), PollOption("B", 0)];
    ResolveB(initial);
    TallyB(initial);
    assert Texts(One("B")) == ["B"];
    assert !HasVoted(p, student);
    assert [] + [Voter(student, [1], now)] == [Voter(student, [1], now)];
  }

  /** The text "B" resolves to option 1 of the fresh A, B list. */
  lemma ResolveB(opts: seq<PollOption>)
    requires opts == [PollOption("A", 0), PollOption("B", 0)]
    ensures Resolve(opts, ["B"]) == Resolved([1])
  {
    TwoOptionLookups(0, 0);
    assert ["B"][..0] == [];
  }

  /** Counting the ballot [1] on the fresh A, B list gives B one vote. */
  lemma TallyB(opts: seq<PollOption>)
    requires opts == [PollOption("A", 0), PollOption("B", 0)]
    ensures Tally(opts, [1]) == [PollOption("A", 0), PollOption("B", 1)]
  {
    assert [1][..0] == [];
    assert Count([1], 0) == 0 && Count([1], 1) == 1;
    var r := Tally(opts, [1]);
    assert r[0] == PollOption("A", 0) && r[1] == PollOption("B", 1);
  }

  /** A ballot naming both options, from someone who has not voted, is
      accepted whatever the poll's type. */
  lemma SecondBallot(q: Poll, other: nat, now: int)
    requires q.options == [PollOption("A", 0), PollOption("B", 1)]
    requires forall i :: 0 <= i < |q.voters| ==> q.voters[i].userId != other
    ensures Vote(q, other, Many(["A", "B"]), now).Voted?
  {
    TwoOptionLookups(0, 1);
    assert forall t :: t in Texts(Many(["A", "B"])) ==> FindOption(q.options, t).Some?;
  }

  /** In the option list A, B the text "A" names option 0 and "B" option 1,
      whatever their counts. */
  lemma TwoOptionLookups(a: int, b: int)
    ensures FindOption([PollOption("A", a), PollOption("B", b)], "A") == Some(0)
    ensures FindOption([PollOption("A", a), PollOption("B", b)], "B") == Some(1)
  {
    var opts := [PollOption("A", a), PollOption("B", b)];
    assert "A" != "B" by { assert "A"[0] != "B"[0]; }
    assert opts[0].text == "A" && opts[1].text == "B";
  }

}
