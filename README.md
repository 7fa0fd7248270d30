# Live poll voting: vote casting and result fan-out

A Dafny model of the two pieces of logic in a small live-poll server:

- **The publish/subscribe registry** (`src/utils/voting-pub-sub.ts`). A table maps each
  poll id to the ordered list of subscribers watching that poll. `subscribe` creates the
  entry if it is missing and appends the subscriber. `publish` calls every subscriber of
  one poll with one message `{pollOptionId, votes}`, in list order. The model
  (`PubSub.VotingPubSub`) is a class with a `channels: map<string, seq<SubscriberId>>`
  field. A subscriber callback is an opaque id. `Publish` returns the calls it makes as a
  sequence of `Delivery(subscriber, message)`.
- **The vote handler** (`POST /polls/:pollId/votes`, `src/http/routes/vote-on-poll.ts`).
  The handler first validates the poll id and the option id. It then reads the
  `sessionId` cookie and handles three cases:
  - a first vote creates a record (reply 201, "Vote registered");
  - a vote for another option deletes the old record and creates a new one (201, "Vote updated");
  - a repeat of the same option is rejected (400, "You can only vote once").
  A voter without a session gets a new session id in a one-week cookie.

  The vote table is modelled as a sequence of records `(id, sessionId, pollId, pollOptionId)`:
  - `VoteStore.Table` is the table as a value;
  - `VoteStore.VoteTable` is the mutable store, with `FindUnique`, `Delete` and `Create`;
  - `VoteOnPoll.CastVote` is one call of the handler, as a function from table to
    (outcome, table);
  - `VoteOnPoll.VoteOnPoll` runs the handler's steps against a `VoteTable` and is proved
    to agree with `CastVote`;
  - the lemmas state what a call promises. The main ones are "at most one vote per
    (session, poll)" as a preserved invariant (`VoteStore.Valid`) and "after a successful
    call exactly one record exists for the pair, naming the chosen option".

Modules: `Wrappers` (`Option`), `PubSub`, `VoteStore`, `VoteOnPoll`.

Where the system's design description and the code disagree, the model follows the code:
- The design calls the fan-out order unspecified. The code calls subscribers in
  registration order.
- The design names an `unsubscribe` operation. The code has none.
- The design has the vote handler emit counter deltas. The handler in the code touches no
  counter and publishes nothing.

## Model

| member | source | states |
|---|---|---|
| PubSub.VotingPubSub.constructor | src/utils/voting-pub-sub.ts:6 | the registry starts with no channels |
| PubSub.VotingPubSub.Subscribe | src/utils/voting-pub-sub.ts:8-14 | the new table is the old one with the poll's channel (empty if missing) extended by the subscriber |
| PubSub.VotingPubSub.Publish | src/utils/voting-pub-sub.ts:16-22 | the calls made are the poll's channel (empty if missing), in order, each paired with the message; no field is modified (no `modifies` clause) |
| PubSub.Fanout | src/utils/voting-pub-sub.ts:19-21 | publishing to a list makes one call per list position, the i-th to the i-th subscriber, all with the same message |
| PubSub.SubscribeCreatesChannel | src/utils/voting-pub-sub.ts:9-13 | subscribing under a poll id with no channel leaves that channel exactly `[subscriber]` |
| PubSub.SubscribeAppends | src/utils/voting-pub-sub.ts:13 | the new channel is one longer, begins with the old channel unchanged and ends with the subscriber |
| PubSub.SubscribeLeavesOtherPolls | src/utils/voting-pub-sub.ts:8-14 | subscribing adds at most the one key and every other poll's channel is unchanged |
| PubSub.PublishWithoutChannel | src/utils/voting-pub-sub.ts:17 | publishing to a poll id with no channel calls nobody |
| PubSub.FanoutPerRegistration | src/utils/voting-pub-sub.ts:19-21 | each subscriber is called exactly as many times as it occurs in the channel |
| PubSub.PublishOnlyToItsChannel | src/utils/voting-pub-sub.ts:17 | a subscriber registered only under other poll ids is never called by a publish to this poll |
| PubSub.PublishAfterSubscribe | src/utils/voting-pub-sub.ts:13-21 | after a subscribe, a publish makes the earlier calls in the same order and then one call to the new subscriber |
| PubSub.SubscribeTwiceDeliversTwice | src/utils/voting-pub-sub.ts:13-21 | subscribing the same subscriber twice is not deduplicated: it occurs twice more and is called twice more per publish |
| VoteStore.Lookup | src/http/routes/vote-on-poll.ts:23-30 | the lookup on (sessionId, pollId) returns a stored record with that key, and returns nothing only when no record has the key |
| VoteStore.Without | src/http/routes/vote-on-poll.ts:36-40 | deleting by id keeps exactly the records whose id differs |
| VoteStore.VoteTable.FindUnique | src/http/routes/vote-on-poll.ts:23-30 | the unique-key lookup on the table returns what `Lookup` specifies and changes nothing |
| VoteStore.VoteTable.Delete | src/http/routes/vote-on-poll.ts:36-40 | the table loses exactly the records with that id; the id counter is unchanged |
| VoteStore.VoteTable.Create | src/http/routes/vote-on-poll.ts:60-66 | one record with the next id is appended and returned; the id counter advances |
| VoteStore.LookupFindsTheRecord | src/http/routes/vote-on-poll.ts:23-30 | with one record per key, the lookup finds the stored record under its key |
| VoteStore.RemoveKeepsValid | src/http/routes/vote-on-poll.ts:36-40 | deleting by id keeps one record per (session, poll), unique ids and ids below the counter |
| VoteStore.InsertKeepsValid | src/http/routes/vote-on-poll.ts:60-66 | creating a record under a key no record has keeps the table invariant |
| VoteOnPoll.VoteOnPoll | src/http/routes/vote-on-poll.ts:7-69 | the handler's steps give the outcome and the new table that `CastVote` gives for the old table |
| VoteOnPoll.InvalidRequestChangesNothing | src/http/routes/vote-on-poll.ts:8-17 | a non-UUID poll id or option id makes the handler throw before any table access; the table is unchanged and the poll id is checked first |
| VoteOnPoll.FirstVoteWithoutSession | src/http/routes/vote-on-poll.ts:48-68 | with no or an empty session cookie, the handler issues the fresh id in a cookie lasting 604800 seconds, appends one record under it and replies 201 "Vote registered" |
| VoteOnPoll.FirstVoteWithSession | src/http/routes/vote-on-poll.ts:22-68 | with a session that has no vote on the poll, the handler appends exactly one record, sets no cookie and replies 201 "Vote registered" |
| VoteOnPoll.RepeatVoteRejected | src/http/routes/vote-on-poll.ts:32-45 | a vote for the option the session already chose on the poll gets 400 "You can only vote once" and leaves the table unchanged |
| VoteOnPoll.ChangedVoteReplaced | src/http/routes/vote-on-poll.ts:32-42 | a vote for another option deletes the previous record by its id, appends one for the new option and replies 201 "Vote updated" |
| VoteOnPoll.RejectedIffSameOption | src/http/routes/vote-on-poll.ts:22-45 | the reply is 400 if and only if both ids are valid, there is a session, and its stored vote on the poll names the same option |
| VoteOnPoll.OneVotePerSessionAndPoll | src/http/routes/vote-on-poll.ts:22-66 | after a successful call, the records of (session, poll) are exactly the new one, naming the chosen option; this assumes at most one such record before and a fresh issued id |
| VoteOnPoll.OtherRecordsUntouched | src/http/routes/vote-on-poll.ts:32-66 | records of every other (session, poll) pair are neither added nor removed, and the only record that can appear is the new one with the next id |
| VoteOnPoll.CastVoteKeepsValid | src/http/routes/vote-on-poll.ts:19-66 | with a fresh issued session id, every call keeps one record per (session, poll), unique ids and ids below the counter |

Helpers without a row:
- `PubSub.ChannelOf` reads a channel, defaulting to empty (voting-pub-sub.ts:17).
- `PubSub.Subscribed` is the table after a subscribe.
- `PubSub.DeliveriesTo` counts the calls to one subscriber.
- `VoteStore.Matching`, `Insert` and `Remove` are the table operations used by the lemmas.
- `VoteStore.MatchingAppend`, `MatchingAbsent`, `SameKeySameRecord`, `SameIdSameRecord`,
  `ConsKeepsUnique`, `SnocKeepsUnique` and `WithoutKeepsUnique` are proof steps.
- `VoteOnPoll.CastVote` is the specification of one handler call. It has no contract of
  its own; the lemmas above state its properties.

## Left out

- The WebSocket route (`src/http/ws/poll-results.ts`) is transport. Its only logic is a
  call to `subscribe` with the validated poll id, which `Subscribe` covers. JSON
  serialisation and socket writes are not modelled.
- The server setup (`src/http/server.ts`) is not modelled: plugin registration, and a
  `listen` whose failure is swallowed.
- The module-level `voting` singleton is not modelled separately. Any `VotingPubSub` instance behaves the same.
- The design describes vote counters, tallies, broadcasts after a vote, unsubscribe,
  dead-connection cleanup and retries with backoff. None of these is in the code, so none
  is modelled.
- Subscriber callbacks are opaque ids that always return. In the source, a callback that
  throws ends the `for` loop, and the later subscribers are not called.
- Re-entrancy is not modelled. The source iterates over the live array, so a callback that
  subscribes during a publish would itself be called in that same publish.
- `channels` is a plain object in the source. Poll ids that clash with inherited object
  properties (such as `constructor`) are not modelled. The routes admit only UUIDs.
- `Message.votes` is a JavaScript number. It is modelled as an unbounded integer.
- `IsUuid` accepts the 8-4-4-4-12 hexadecimal form of section 3 of RFC 4122, in either
  case. The exact regular expression of the validation library is not part of this model.
  It may also restrict the version and variant digits.
- When validation fails, the model records which schema threw. The HTTP status is chosen
  by the framework's error handler, which is not part of this model.
- A body without a string `pollOptionId` is modelled as `None`. Other body shapes are not
  distinguished.
- The generated session id is the parameter `freshSession`. The lemmas that need it
  assume it occurs in no stored record, which is what a random UUID provides.
- Cookie signing and parsing are not modelled; the cookie value is an opaque session id.
  The handler creates a record under the unsigned id but later looks up whatever cookie
  value it receives. With `signed: true` that value carries the plugin's signature, and
  the handler never unsigns it. The model takes the value read as the session id, so it
  does not capture any mismatch this causes.
- The database is modelled as an in-memory table, and database errors are not modelled:
  - deleting a missing record;
  - creating a record that breaks the unique key;
  - an unreachable database.
  The unique (sessionId, pollId) key is the invariant `VoteStore.Valid`, and
  `CastVoteKeepsValid` proves that the handler never breaks it.
- Record ids come from a counter in the table, standing for a key the database
  generates. The database schema is not part of this model, and neither are columns other
  than the four above.
- Concurrency is not modelled. The handler's `await`s run as one sequential step, so the
  race between the lookup and the create is not captured.
