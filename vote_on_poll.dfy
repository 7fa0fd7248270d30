/**
 * The handler of `POST /polls/:pollId/votes` (src/http/routes/vote-on-poll.ts):
 * validate the poll id and the chosen option, look up the session's vote on the
 * poll, and register a first vote, replace a vote for another option, or reject
 * a repeated vote for the same option.
 *
 * `CastVote` is the transition as a function of the vote table; the method
 * `VoteOnPoll` performs it step by step on a `VoteTable` and is proved to agree
 * with it; the lemmas state what the transition promises.
 */
module VoteOnPoll {

  import opened Wrappers
  import opened VoteStore

  predicate IsHexDigit(c: char)
  {
    '0' <= c <= '9' || 'a' <= c <= 'f' || 'A' <= c <= 'F'
  }

  /** The textual UUID form of section 3 of RFC 4122: 8-4-4-4-12 hexadecimal digits. */
  predicate IsUuid(s: string)
  {
    |s| == 36 &&
    forall i :: 0 <= i < |s| ==>
      if i == 8 || i == 13 || i == 18 || i == 23 then s[i] == '-' else IsHexDigit(s[i])
  }

  const VoteRegistered := "Vote registered"
  const VoteUpdated := "Vote updated"
  const OnlyOnce := "You can only vote once"

  /** One week, in seconds. */
  const SessionMaxAge: nat := 60 * 60 * 24 * 7

  /** The `sessionId` cookie the handler sets for a voter without a session. */
  datatype SessionCookie = SessionCookie(
    name: string, value: string, path: string, maxAge: nat,
    signed: bool, httpOnly: bool, sameSite: string)

  function IssuedCookie(sessionId: string): SessionCookie
  {
    SessionCookie("sessionId", sessionId, "/", SessionMaxAge, true, true, "strict")
  }

  /** Which schema rejected the request: the route parameters or the body. */
  datatype ValidationError = InvalidPollId | InvalidPollOptionId

  datatype ReplyBody = MessageBody(message: string) | ErrorBody(error: string)

  /** The handler either throws a validation error or sends a reply. */
  datatype Outcome =
    | Threw(error: ValidationError)
    | Replied(status: nat, body: ReplyBody, setCookie: Option<SessionCookie>)

  /** The outcome together with the vote table it leaves. */
  datatype Step = Step(outcome: Outcome, table: Table)

  /** A cookie value counts as a session only when present and non-empty. */
  predicate HasSession(cookie: Option<string>)
  {
    cookie.Some? && cookie.value != ""
  }

  /** The session the vote is recorded under: the cookie's, or else the newly issued one. */
  function SessionFor(cookie: Option<string>, freshSession: string): string
  {
    if HasSession(cookie) then cookie.value else freshSession
  }

  predicate Succeeded(o: Outcome)
  {
    o.Replied? && o.status == 201
  }

  /**
   * One call of the handler on table `t`. `pollOptionId` is None when the body
   * has no string field `pollOptionId`; `cookie` is the `sessionId` cookie as
   * read; `freshSession` stands for the id the handler would generate.
   */
  function CastVote(t: Table, pollId: string, pollOptionId: Option<string>, cookie: Option<string>, freshSession: string): Step
  {
    if !IsUuid(pollId) then Step(Threw(InvalidPollId), t)
    else if pollOptionId.None? || !IsUuid(pollOptionId.value) then Step(Threw(InvalidPollOptionId), t)
    else
      var option := pollOptionId.value;
      if HasSession(cookie) then
        var sessionId := cookie.value;
        match Lookup(t.votes, sessionId, pollId)
        case Some(previous) =>
          if previous.pollOptionId != option then
            Step(Replied(201, MessageBody(VoteUpdated), None),
                 Insert(Remove(t, previous.id), sessionId, pollId, option))
          else
            Step(Replied(400, ErrorBody(OnlyOnce), None), t)
        case None =>
          Step(Replied(201, MessageBody(VoteRegistered), None), Insert(t, sessionId, pollId, option))
      else
        Step(Replied(201, MessageBody(VoteRegistered), Some(IssuedCookie(freshSession))),
             Insert(t, freshSession, pollId, option))
  }

  /** The handler body, step by step against the vote table. */
  method VoteOnPoll(table: VoteTable, pollId: string, pollOptionId: Option<string>, cookie: Option<string>, freshSession: string)
    returns (outcome: Outcome)
    modifies table
    ensures Step(outcome, table.State()) == CastVote(old(table.State()), pollId, pollOptionId, cookie, freshSession)
  {
    if !IsUuid(pollId) {
      return Threw(InvalidPollId);
    }
    if pollOptionId.None? || !IsUuid(pollOptionId.value) {
      return Threw(InvalidPollOptionId);
    }
    var option := pollOptionId.value;

    var sessionId := cookie;
    var message := VoteRegistered;

    if HasSession(sessionId) {
      var alreadyVoted := table.FindUnique(sessionId.value, pollId);
      if alreadyVoted.Some? && alreadyVoted.value.pollOptionId != option {
        table.Delete(alreadyVoted.value.id);
        message := VoteUpdated;
      } else if alreadyVoted.Some? {
        return Replied(400, ErrorBody(OnlyOnce), None);
      }
    }

    var setCookie := None;
    if !HasSession(sessionId) {
      sessionId := Some(freshSession);
      setCookie := Some(IssuedCookie(freshSession));
    }

    var _ := table.Create(sessionId.value, pollId, option);
    return Replied(201, MessageBody(message), setCookie);
  }

  /** A malformed poll id or option is rejected before the table is touched; the poll id is checked first. */
  lemma InvalidRequestChangesNothing(t: Table, pollId: string, pollOptionId: Option<string>, cookie: Option<string>, freshSession: string)
    requires !IsUuid(pollId) || pollOptionId.None? || !IsUuid(pollOptionId.value)
    ensures CastVote(t, pollId, pollOptionId, cookie, freshSession)
         == Step(Threw(if IsUuid(pollId) then InvalidPollOptionId else InvalidPollId), t)
  {
  }

  /** Without a session: a new session is issued as a week-long cookie and one record is created under it. */
  lemma FirstVoteWithoutSession(t: Table, pollId: string, option: string, cookie: Option<string>, freshSession: string)
    requires IsUuid(pollId) && IsUuid(option)
    requires !HasSession(cookie)
    ensures var r := CastVote(t, pollId, Some(option), cookie, freshSession);
      && r.outcome == Replied(201, MessageBody(VoteRegistered), Some(IssuedCookie(freshSession)))
      && r.outcome.setCookie.value.maxAge == 604800
      && r.table.votes == t.votes + [Vote(t.nextId, freshSession, pollId, option)]
  {
  }

  /** With a session that has not voted on the poll: exactly one record is created; no cookie is set. */
  lemma FirstVoteWithSession(t: Table, pollId: string, option: string, cookie: Option<string>, freshSession: string)
    requires IsUuid(pollId) && IsUuid(option)
    requires HasSession(cookie)
    requires forall v :: v in t.votes ==> !HasKey(v, cookie.value, pollId)
    ensures var r := CastVote(t, pollId, Some(option), cookie, freshSession);
      && r.outcome == Replied(201, MessageBody(VoteRegistered), None)
      && r.table.votes == t.votes + [Vote(t.nextId, cookie.value, pollId, option)]
  {
  }

  /** Voting again for the same option is rejected with 400 and leaves the table as it was. */
  lemma RepeatVoteRejected(t: Table, pollId: string, cookie: Option<string>, freshSession: string, previous: Vote)
    requires KeysUnique(t.votes)
    requires IsUuid(pollId) && IsUuid(previous.pollOptionId)
    requires HasSession(cookie)
    requires previous in t.votes && HasKey(previous, cookie.value, pollId)
    ensures CastVote(t, pollId, Some(previous.pollOptionId), cookie, freshSession)
         == Step(Replied(400, ErrorBody(OnlyOnce), None), t)
  {
    LookupFindsTheRecord(t.votes, previous);
  }

  /** Voting for another option deletes the previous record by its id and creates one for the new option. */
  lemma ChangedVoteReplaced(t: Table, pollId: string, option: string, cookie: Option<string>, freshSession: string, previous: Vote)
    requires KeysUnique(t.votes)
    requires IsUuid(pollId) && IsUuid(option)
    requires HasSession(cookie)
    requires previous in t.votes && HasKey(previous, cookie.value, pollId) && previous.pollOptionId != option
    ensures var r := CastVote(t, pollId, Some(option), cookie, freshSession);
      && r.outcome == Replied(201, MessageBody(VoteUpdated), None)
      && r.table.votes == Without(t.votes, previous.id) + [Vote(t.nextId, cookie.value, pollId, option)]
  {
    LookupFindsTheRecord(t.votes, previous);
  }

  /** The handler answers 400 exactly when the session already has a vote on the poll for that same option. */
  lemma RejectedIffSameOption(t: Table, pollId: string, option: string, cookie: Option<string>, freshSession: string)
    requires KeysUnique(t.votes)
    ensures CastVote(t, pollId, Some(option), cookie, freshSession).outcome == Replied(400, ErrorBody(OnlyOnce), None)
        <==> IsUuid(pollId) && IsUuid(option) && HasSession(cookie) &&
             exists v :: v in t.votes && HasKey(v, cookie.value, pollId) && v.pollOptionId == option
  {
    if IsUuid(pollId) && IsUuid(option) && HasSession(cookie) {
      var found := Lookup(t.votes, cookie.value, pollId);
      if found.Some? && found.value.pollOptionId == option {
        assert found.value in t.votes;
      }
      if v :| v in t.votes && HasKey(v, cookie.value, pollId) && v.pollOptionId == option {
        LookupFindsTheRecord(t.votes, v);
      }
    }
  }

  /**
   * After a successful vote the session has exactly one record on the poll,
   * the new one, naming the chosen option.
   */
  lemma OneVotePerSessionAndPoll(t: Table, pollId: string, option: string, cookie: Option<string>, freshSession: string)
    requires Valid(t)
    requires forall v :: v in t.votes ==> v.sessionId != freshSession
    requires Succeeded(CastVote(t, pollId, Some(option), cookie, freshSession).outcome)
    ensures var sessionId := SessionFor(cookie, freshSession);
      Matching(CastVote(t, pollId, Some(option), cookie, freshSession).table.votes, sessionId, pollId)
        == [Vote(t.nextId, sessionId, pollId, option)]
  {
    var sessionId := SessionFor(cookie, freshSession);
    var created := Vote(t.nextId, sessionId, pollId, option);
    var kept := t.votes;
    if HasSession(cookie) {
      var found := Lookup(t.votes, sessionId, pollId);
      if found.Some? {
        var previous := found.value;
        kept := Without(t.votes, previous.id);
        forall w | w in kept
          ensures !HasKey(w, sessionId, pollId)
        {
          if HasKey(w, sessionId, pollId) {
            SameKeySameRecord(t.votes, previous, w);
          }
        }
      }
    }
    assert CastVote(t, pollId, Some(option), cookie, freshSession).table.votes == kept + [created];
    MatchingAbsent(kept, sessionId, pollId);
    MatchingAppend(kept, [created], sessionId, pollId);
  }

  /**
   * Records of every other (session, poll) pair are kept and no other is added;
   * the only record that can appear is the new one, with the next id.
   */
  lemma OtherRecordsUntouched(t: Table, pollId: string, pollOptionId: Option<string>, cookie: Option<string>, freshSession: string)
    requires Valid(t)
    ensures var r := CastVote(t, pollId, pollOptionId, cookie, freshSession);
      var sessionId := SessionFor(cookie, freshSession);
      && (forall v :: !HasKey(v, sessionId, pollId) ==> (v in r.table.votes <==> v in t.votes))
      && (forall v :: v in r.table.votes && v !in t.votes ==>
            v == Vote(t.nextId, sessionId, pollId, pollOptionId.value))
  {
    var r := CastVote(t, pollId, pollOptionId, cookie, freshSession);
    var sessionId := SessionFor(cookie, freshSession);
    if IsUuid(pollId) && pollOptionId.Some? && IsUuid(pollOptionId.value) && HasSession(cookie) {
      var found := Lookup(t.votes, sessionId, pollId);
      if found.Some? && found.value.pollOptionId != pollOptionId.value {
        var previous := found.value;
        forall v | !HasKey(v, sessionId, pollId) && v in t.votes
          ensures v in r.table.votes
        {
          if v.id == previous.id {
            SameIdSameRecord(t.votes, v, previous);
          }
        }
      }
    }
  }

  /** Given a fresh session id, every call keeps the table's invariant, including one vote per (session, poll). */
  lemma CastVoteKeepsValid(t: Table, pollId: string, pollOptionId: Option<string>, cookie: Option<string>, freshSession: string)
    requires Valid(t)
    requires forall v :: v in t.votes ==> v.sessionId != freshSession
    ensures Valid(CastVote(t, pollId, pollOptionId, cookie, freshSession).table)
  {
    if IsUuid(pollId) && pollOptionId.Some? && IsUuid(pollOptionId.value) {
      var option := pollOptionId.value;
      var sessionId := SessionFor(cookie, freshSession);
      if HasSession(cookie) {
        var found := Lookup(t.votes, sessionId, pollId);
        if found.Some? && found.value.pollOptionId != option {
          var previous := found.value;
          var removed := Remove(t, previous.id);
          RemoveKeepsValid(t, previous.id);
          forall w | w in removed.votes
            ensures !HasKey(w, sessionId, pollId)
          {
            if HasKey(w, sessionId, pollId) {
              SameKeySameRecord(t.votes, previous, w);
            }
          }
          InsertKeepsValid(removed, sessionId, pollId, option);
        } else if found.None? {
          InsertKeepsValid(t, sessionId, pollId, option);
        }
      } else {
        InsertKeepsValid(t, sessionId, pollId, option);
      }
    }
  }
}
