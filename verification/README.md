# delayq in Dafny

A model of `delayq`, a delay queue kept in one Redis sorted set.

- **Producers.** A producer adds a message with `AddMsg` or `Add`. The message's identifier and payload are encoded as the set member. Its deadline (in nanoseconds) is the score. A member that is already queued is refused with `ErrExists`.
- **Consumer.** The consumer, `Dequeue`, loops until the first error. Each pass:
  1. checks its context for cancellation;
  2. fetches every entry whose score lies in `[0, now + PollPeriod]`, in ascending score order;
  3. for each entry: decodes it, sleeps until its deadline if that is still ahead, calls the handler, and removes the entry;
  4. sleeps until the next poll.
- **Client.** The radix client `dqradix` passes `ZADD NX` and `ZREM` through. It turns the flat `ZRANGEBYSCORE … WITHSCORES` reply into (member, score) tuples, and refuses an odd-length reply and a score that does not parse.

The model is split into these modules:

| module | file | contents |
|---|---|---|
| `Base` | `base.dfy` | bytes, the error kinds, `Option` and `Result` |
| `Decimal` | `decimal.dfy` | the decimal text of a score and its parser, with the round trip |
| `Message` | `message.dfy` | `Msg`, how the member bytes encode and decode the identifier and payload, the round trip, and the fact that the deadline is not part of a message's identity |
| `ZSet` | `zset.dfy` | a sorted set as a map from member to score. Its listing is ordered by score, then by member bytes, as Redis orders equal scores. `Range` keeps the entries with `lo <= score <= hi` |
| `Redis` | `redis.dfy` | the store as a class (`Server`) holding the map and a count of the commands it was sent. A script of per-command connection faults is supplied by the caller. Also the flat reply a server writes for a range |
| `DqRadix` | `dqradix.dfy` | the client (`Client`): its pass-throughs and its reply decoding, proved to read back exactly the range the server holds. Also the client's basic scenario |
| `Consumer` | `consumer.dfy` | the consumer loop as pure functions over a `World`, which holds the set, the command count, the clock, its sleeps and the handler log. Cancellation, connection faults and handler results come from an `Oracle`. The delivery properties are lemmas about `Deliver`, `Pass`, `Poll` and `Run` |
| `DelayQ` | `delayq.dfy` | the queue, the clock and the handler as classes. `Queue.Dequeue` runs imperative loops and is proved to change the set, the clock and the handler log exactly as `Consumer.Run` says |

## Model

| member | source | states |
|---|---|---|
| Decimal.FormatNat | dqradix/dqradix.go:42 | the text a server writes for a non-negative score is a non-empty run of digits, one digit exactly for values below ten |
| Decimal.ParseNatFormat | dqradix/dqradix.go:68 | reading back the digits written for n gives exactly n |
| Decimal.Parse | dqradix/dqradix.go:68-71 | a score parses only from non-empty text; a run of digits parses to the number it denotes |
| Decimal.ValueOfFormat | dqradix/dqradix.go:42 | the digits written for n denote n |
| Decimal.Format | dqradix/dqradix.go:42 | the text a server writes for a score: an optional minus sign, then the digits; its properties are ParseFormat and FormatNat |
| Decimal.ParseFormat | dqradix/dqradix.go:42-71 | every score a server writes parses back to that same score |
| Message.Marshal | delayq.go:124-125 | the member bytes of a message hold its identifier and payload and leave out the deadline; its properties are UnmarshalMarshal and SameMemberIff |
| Message.Unmarshal | delayq.go:89-92 | decoding member bytes, None when they are malformed; its property is UnmarshalMarshal |
| Message.UnmarshalMarshal | delayq.go:89-92 | decoding the member bytes of a message gives back its identifier and payload (the deadline is not encoded) |
| Message.SameMemberIff | delayq.go:37-41 | two messages have the same member bytes exactly when their identifiers and payloads agree, whatever their deadlines |
| ZSet.MemberLeTotal | delayq.go:29-34 | the tie order on member bytes compares any two members |
| ZSet.MemberLeAntisymmetric | delayq.go:29-34 | two members each ordered before the other are equal |
| ZSet.MemberLeTransitive | delayq.go:29-34 | the tie order on member bytes is transitive |
| ZSet.BeforeTotal | delayq.go:29-34 | the set's order (score, then member) compares any two tuples |
| ZSet.BeforeTransitive | delayq.go:29-34 | the set's order is transitive |
| ZSet.FirstExists | delayq.go:29-34 | a non-empty set has a first entry in its order |
| ZSet.FirstUnique | delayq.go:29-34 | the first entry of a set is unique |
| ZSet.ListingWithin | delayq.go:29-34 | every tuple of a set's listing is an entry of the set with its own score |
| ZSet.ListingMembers | delayq.go:29-34 | a set's listing names exactly the set's members |
| ZSet.ListingOrdered | delayq.go:29-34 | a set's listing is in ascending order and names no member twice |
| ZSet.BetweenKeeps | delayq.go:29-34 | the score filter keeps exactly the tuples whose score lies in [lo, hi], both ends included |
| ZSet.BetweenSorted | delayq.go:29-34 | filtering an ordered duplicate-free listing keeps it ordered and duplicate-free |
| ZSet.Range | delayq.go:29-34 | the entries a ZRANGEBYSCORE over [lo, hi] returns; RangeOrdered, RangeWithin, RangeScores and RangeMembers together fix it uniquely |
| ZSet.RangeOrdered | delayq.go:29-34 | a range reply is in ascending score order and names no member twice |
| ZSet.RangeWithin | delayq.go:29-34 | every tuple of a range reply is an entry of the set with its stored score |
| ZSet.RangeScores | delayq.go:29-34 | every score of a range reply lies in [lo, hi] |
| ZSet.RangeMember | delayq.go:29-34 | one member is in a range reply exactly when it is in the set with a score in [lo, hi] |
| ZSet.RangeMembers | delayq.go:29-34 | a range reply names exactly the members whose score lies in [lo, hi] |
| Redis.Flatten | dqradix/dqradix.go:42 | the flat WITHSCORES reply has two items per tuple: the member, then the score's text |
| Redis.Server.constructor | dqradix/dqradix.go:80-103 | a fresh store is an empty set that has served no command |
| Redis.Server.ZAddNX | delayq.go:23-24 | a connection fault leaves the set unchanged; otherwise the reply is 1 and the entry is added for a new member, 0 with the set unchanged (score included) for an existing one |
| Redis.Server.ZRem | delayq.go:26-27 | without a fault the member is removed if present, and nothing else changes |
| Redis.Server.ZRangeByScore | delayq.go:29-34 | without a fault the reply is the flattened range [min, max]; the set is unchanged |
| DqRadix.DecodeReply | dqradix/dqradix.go:47-77 | an odd-length reply is an error. Otherwise the result holds len/2 tuples and tuple k is (res[2k], parse(res[2k+1])), in reply order. It succeeds exactly when every score parses; otherwise the error names the first score that does not parse, and no tuple is returned. An empty reply gives no tuples and no error |
| DqRadix.FlattenReadsBack | dqradix/dqradix.go:62-75 | the pairs of any reply a server writes read back as its tuples |
| DqRadix.Client.constructor | dqradix/dqradix.go:14-16 | the client wraps the given connection |
| DqRadix.Client.ZAddNX | dqradix/dqradix.go:22-30 | a connection error gives count 0 and that error; otherwise the count is 1 for a new member and 0 for an existing one, whatever the score |
| DqRadix.Client.ZRem | dqradix/dqradix.go:32-34 | the connection's error is passed on; without one the member is gone |
| DqRadix.Client.ZRangeByScore | dqradix/dqradix.go:36-78 | the result is the connection's error, or exactly the entries with a score in [min, max] in ascending order |
| ZSet.DistinctCount | dqradix/dqradix_test.go:53 | a duplicate-free reply has as many tuples as members |
| DqRadix.BasicWrites | dqradix/dqradix_test.go:23-49 | the client test's writes on an empty set return the counts 1, 0, 1, 0, 1, 1 and leave member1 at 1, member2 at 2 and member3 at 3 |
| DqRadix.Basic | dqradix/dqradix_test.go:14-62 | the whole client test: those counts, then [1, 3] reads member1, member2 and member3 with scores 1, 2 and 3, and [2, 2] reads member2 alone |
| DqRadix.ThreeEntries | dqradix/dqradix_test.go:51-57 | the range [1, 3] of that set is the three entries in score order |
| DqRadix.MiddleEntry | dqradix/dqradix_test.go:59-61 | the range [2, 2] of that set is member2 alone |
| DqRadix.ThreeSorted | dqradix/dqradix_test.go:53-57 | an ordered reply naming member1 to member3 with their scores is those three in that order |
| Consumer.WaitFor | delayq.go:94-98 | the consumer's wait moves the clock to the later of now and the deadline, records a sleep of deadline - now exactly when the deadline is ahead, and leaves the set, the command count and the log alone |
| Consumer.Received | delayq.go:89-95 | the message handed to the handler carries the entry's score as its deadline |
| Consumer.HandleOne | delayq.go:89-106 | one step of the inner loop: decode, wait for the deadline, call the handler, remove the entry, stopping at the first error; its properties are HandleOneFacts and AddedIsReceived |
| Consumer.Deliver | delayq.go:88-107 | the inner loop over a fetched batch; its properties are the Deliver lemmas below |
| Consumer.Pass | delayq.go:88-109 | the inner loop, then the sleep until the next poll; its properties are the Pass lemmas below |
| Consumer.Poll | delayq.go:77-109 | one pass of the outer loop: cancellation check, fetch of [0, now + PollPeriod], then Pass; its properties are the Poll lemmas below |
| Consumer.Run | delayq.go:76-110 | the outer loop for at most fuel passes, ending at the first error; its properties are RunHandler, RunClock, RunKeepsOrder and DeliveredInDeadlineOrder |
| Consumer.HandleOneFacts | delayq.go:89-106 | one entry causes at most one handler call, made at the later of the clock and the deadline. The entry is removed only after the call succeeded. A failed call's error is the result |
| Consumer.DeliverLog | delayq.go:88-102 | the handler calls of a batch are, one by one, the messages of its first entries, in batch order; without error every entry was handled |
| Consumer.DeliverAcks | delayq.go:100-106 | exactly the entries acknowledged are removed, and each was handled successfully; a batch ends without error exactly when all were acknowledged |
| Consumer.DeliverHandlerError | delayq.go:100-102 | a failing handler call is the batch's last call and its error is the batch's error |
| Consumer.DeliverRetains | delayq.go:100-106 | when a batch fails, the entry it failed on and every later one are still in the set with their scores |
| Consumer.DeliverTiming | delayq.go:94-100 | each handler call happens at the later of the previous call's time (or the start) and the deadline, so the clock moves by exactly deadline - now when the deadline is ahead and not at all otherwise |
| Consumer.DeliverNeverEarly | delayq.go:94-100 | no handler is called before its message's deadline |
| Consumer.DeliverSleeps | delayq.go:96-98 | within a batch the clock never goes back and every sleep is positive |
| Consumer.DeliverClockBound | delayq.go:94-98 | over entries due by a bound, a batch started no later than the bound ends no later than it |
| Consumer.DeliverAllOrNothing | delayq.go:88-107 | a batch that ends without error handled every entry successfully and removed exactly them |
| Consumer.PassLog | delayq.go:88-102 | the calls of a pass extend the log, at most one per fetched entry, with each message's deadline its entry's score |
| Consumer.PollLog | delayq.go:81-102 | every message handed over in a pass has a deadline in [0, now + PollPeriod] |
| Consumer.PassDrains | delayq.go:88-109 | a pass without error removes exactly the fetched entries and ends with the clock at the next poll |
| Consumer.PollDrains | delayq.go:81-109 | a pass without error leaves exactly the entries outside [0, now + PollPeriod], with their scores, and ends at now + PollPeriod |
| Consumer.PollEmpties | delayq.go:81-109 | once every entry is due, a pass without error empties the set |
| Consumer.PassHandlerFailure | delayq.go:100-106 | when the handler fails on fetched entry k, the pass returns that error; entries before k are removed, and entry k and all later ones remain |
| Consumer.PollHandlerFailure | delayq.go:83-106 | the same for a whole pass: the handler's error is returned, the entries handled before it are gone, and the failing entry and those after it remain |
| Consumer.PassKeepsOrder | delayq.go:88-109 | over a sorted fetch of everything due, the calls stay in deadline order and nothing left in the set is due before the last call |
| Consumer.PollKeepsOrder | delayq.go:81-109 | a pass keeps the handler calls in deadline order |
| Consumer.PassHandler | delayq.go:94-102 | in a pass no handler is called early, and a handler error is the last call and the pass's error |
| Consumer.PollHandler | delayq.go:77-109 | the same for a whole pass, which only extends the log |
| Consumer.PassClock | delayq.go:94-109 | over entries due by the next poll the clock never goes back and no sleep is negative |
| Consumer.PollClock | delayq.go:81-109 | with a non-negative PollPeriod a pass never moves the clock back |
| Consumer.RunHandler | delayq.go:66-111 | over the whole loop no handler is called early, and a handler error is the last call and the loop's result |
| Consumer.RunClock | delayq.go:66-111 | with a non-negative PollPeriod the clock of the loop never goes back |
| Consumer.RunKeepsOrder | delayq.go:66-111 | from a settled start, the loop delivers in deadline order |
| Consumer.DeliveredInDeadlineOrder | delayq_test.go:58-72 | the handler sees messages in ascending deadline order over the whole loop; which messages it sees is RunDelivers |
| Consumer.RunDelivers | delayq.go:66-111 | with a non-negative PollPeriod, the handler calls of fuel passes are, one by one and in order, the messages (deadline = score) of a prefix of the entries due by now + fuel * PollPeriod, none skipped, repeated or added; when the passes are used up without error, that prefix is all of them and exactly they are removed from the set |
| Consumer.RunDeliversExpected | delayq.go:76-110 | the same, pass by pass: the calls are a prefix of each pass's range over what the earlier passes left, put end to end, and all of it when no error occurred |
| Consumer.ExpectedIsRange | delayq.go:81-86 | with a non-negative PollPeriod, the ranges of successive passes, each over what the earlier ones left, put end to end are the one range due by the last pass's poll time |
| Consumer.PollDelivers | delayq.go:77-109 | one pass hands the handler a prefix of the entries due by now + PollPeriod, in order; without error all of them, exactly they are removed, and the clock ends at now + PollPeriod |
| Consumer.PassDelivers | delayq.go:88-109 | the inner loop hands the handler a prefix of the fetched batch, in order; without error all of it, exactly the batch is removed, and the clock ends at the next poll |
| Consumer.DeliveredPrefixMeans | delayq.go:89-100 | the log keeps its earlier calls and each later call j is the decoded j-th tuple, with its score as deadline, for a prefix of the tuples, and only then |
| ZSet.RangeSplit | delayq.go:29-34 | ranges nest: the range up to b is the range up to a, then the range up to b of what is left once that first range is removed |
| ZSet.SortedUnique | delayq.go:29-34 | two ordered, duplicate-free sequences of entries of a set that name the same members are equal, so a set has one listing |
| DelayQ.Clock.constructor | delayq_test.go:24-25 | the test clock starts at the given time with no sleeps |
| DelayQ.Clock.Sleep | delayq_test.go:31-34 | a sleep of d moves the clock by exactly d and records d |
| DelayQ.Handler.constructor | delayq_test.go:64-71 | a scripted handler starts with an empty log |
| DelayQ.Handler.Handle | delayq.go:100 | the n-th call returns the script's n-th outcome and is logged with the time of the call |
| DelayQ.Queue.constructor | delayq.go:53-58 | the queue wraps the given client |
| DelayQ.Queue.AddMsg | delayq.go:124-138 | a connection error is returned with the set unchanged. A message whose identifier and payload are queued gets ErrExists, and the set and the queued score are unchanged. Otherwise exactly one entry is added, member = the encoding and score = the deadline, and nil is returned |
| DelayQ.Queue.Add | delayq.go:113-122 | the deadline stored is now + delay; on success the generated id is returned, on any error the empty id and that error |
| DelayQ.Queue.HandleTuple | delayq.go:89-106 | one step of the inner loop does exactly what Consumer.HandleOne says |
| DelayQ.Queue.DeliverFetched | delayq.go:88-109 | the inner loop and the final sleep do exactly what Consumer.Pass says |
| DelayQ.Queue.PollOnce | delayq.go:77-109 | one pass of the outer loop does exactly what Consumer.Poll says |
| DelayQ.Queue.Dequeue | delayq.go:66-111 | the consumer loop changes the set, the clock and the handler log exactly as Consumer.Run says, and returns its stop; every Run lemma holds of it |
| DelayQ.AddedIsReceived | delayq.go:124-130 | an entry that AddMsg stored reaches the handler as the very message that was added, deadline included |

## Left out

- The sorted set's name (`key`, `q.name`): the model has one queue over one set, so the name is dropped.
- Floating-point scores: scores are integer nanoseconds. `float64(UnixNano())` and `int64(Score)` are left out, together with the precision they lose near 10^18. `strconv.ParseFloat` and the server's score text are modelled as a decimal integer writer and parser.
- JSON: `json.Marshal`/`json.Unmarshal` of `{ID, Data}` is replaced by a length-prefixed encoding. It holds the identifier's length in decimal, a colon, the identifier, then the payload. Like the JSON encoding it is deterministic and leaves out the deadline. Unlike `encoding/json`, it is injective on every identifier and payload and always decodes back. `encoding/json` replaces invalid UTF-8 in `ID` with U+FFFD, so two different identifiers can become one member (`ErrExists` in the source, not in the model) and fail to round-trip; it also writes a nil `Data` as `null` and an empty one as `""`, which are different members. Message.SameMemberIff, Message.UnmarshalMarshal and DelayQ.AddedIsReceived hold of the length-prefixed encoding only. Decoding can fail, which gives `BadMember`. `json.Marshal` cannot fail on a `Msg`, so `AddMsg`'s error return after it is not modelled.
- `uuid.NewString`: the fresh id is a parameter of `Add`.
- `context.Context`: cancellation is a script `ctx(i)`, read at the top of pass i. Go's `ctx` passed into the store commands is dropped.
- Real time: `now` and `sleep` are the test's fake clock, a class whose `Sleep` moves the time by exactly the given amount (a negative amount moves it back, as the fake does). Real sleeping and clock drift are not modelled.
- Connection and server failures: the n-th command on a connection fails as a caller-given script `fault(n)` says. A failed command is assumed to have had no effect on the server. In the source, `Do` can report an error (a lost reply, a timeout) after Redis applied the `ZADD` or `ZREM`; the model does not capture that. So `Consumer.DeliverRetains`'s "the failing entry is still in the set" for a failed `ZREM`, and `AddMsg`'s "set unchanged" on a connection error, rest on this assumption. The Redis wire protocol, the `Do` calls, dialing and `NewForTesting`'s `KEYS`/`DEL` clean-up are left out.
- Concurrent consumers and the duplicate deliveries they cause are not modelled; the model is one sequential consumer.
- Writers during `Dequeue`: the model assumes that nothing but the consumer writes the set while `Dequeue` runs. The source's store is shared, so a producer's `Add`, or the handler itself, can insert an entry while the consumer sleeps. Consumer.RunKeepsOrder and Consumer.DeliveredInDeadlineOrder (order across passes) depend on this assumption. For example, a later pass can deliver an entry due at 0.5s that was added after an entry due at 0.9s was delivered. Order within one pass (Consumer.PassKeepsOrder) does not depend on it.
- Functional options: the poll period is an optional parameter of `Dequeue`, defaulting to `Consumer.DefaultPollPeriod`, one second.
- Go's `int64` overflow of times and durations is not modelled; integers are unbounded.
- DelayQ.Queue.Dequeue: the source loops until an error. The model makes at most `fuel` passes and ends with `Polling` when they are used up. Every other ending is a `Failed` error, as in the source.
- The Redis server is not part of this model. `ZSet.Range` follows the documented order of `ZRANGEBYSCORE`: by score, then by member bytes, with a proper prefix first. Redis's skip list and its floating-point score comparison are not modelled.
