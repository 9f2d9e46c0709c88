# Reply model of ruby-china, in Dafny

This project models the logic of the `Reply` model of ruby-china
(`app/models/reply.rb`) and proves properties of it:

- **Reply notifications** (`Reply.send_topic_reply_notification`). After a
  reply is created, the topic owner gets a `TopicReply` notification unless
  they wrote the reply or were mentioned in it. Then every follower gets one,
  in `follower_ids` order, unless they are in `notified_user_ids` or are the
  reply's author. The notification collection is a `NotificationTable` class
  whose `rows` field the methods extend (`notifications.dfy`).
- **Destroy cleanup** (`Reply#destroy`, which calls
  `notifications.delete_all`). Destroying a reply deletes every notification
  row it owns (`NotificationTable.DeleteForReply`).
- **Popularity** (`popular?`). A reply is popular from five likes on
  (`entities.dfy`).
- **Decayed hot-topic score** (`Reply.get_hot_topic_from_mongodb`). The
  period selects `(divisor, period_length)`: week gives `(86400000, 7)`, day
  gives `(3600000, 24)`, anything else `(1, 1)`. Each reply contributes
  `period_length - parseInt((now - created_at) / divisor)` to its topic.
  - The map step groups creation times by topic (`GroupByTopic`).
  - Reduce is a summing loop (`Reduce`).
  - Finalize scores a lone emitted value (`Finalize`).
  - `MapReduce` is the whole job. It is proved equal to the pure
    `HotTopicScores` (`hot_score.dfy`).
- **Hot-topic cache** (`Reply.get_hot_topic`). On a miss for key
  `"<period>_hot_topic"`, the replies of the last period are scored and the
  result is stored with a TTL of 3600 s (week) or 600 s (day). The top five
  ids by descending score are then read. As in the source, they are always
  read from `week_hot_topic`, whichever period was asked for. The store is a
  `HotTopicCache` class over a map of keys to sorted sets with expiry times
  (`hot_cache.dfy`).

Time is one explicit clock `now`, in milliseconds since the epoch. The Ruby
`1.week.ago`, the JavaScript `new Date()` and the Redis expiry clock are all
that one parameter.

Behaviour of the code worth knowing:

- The age is `parseInt` of a float quotient, which truncates toward zero. It
  equals the floor when `created_at <= now`; for a reply dated in the future
  it is one above the floor unless the age is a whole number of divisors
  (`TruncatedQuotient`).
- The top-five read uses the literal key `week_hot_topic` even for a day
  call. `DayCallReadsWeekRanking` and `DayCallOnEmptyStore` state what this
  does.
- Followers are not added to `notified_user_ids` as they are notified. A
  follower listed twice in `follower_ids` gets two notifications
  (`DuplicateFollowerNotifiedTwice`).

## Model

| member | source | states |
|---|---|---|
| Entities.PopularIsThreshold | app/models/reply.rb:92-94 | a reply is popular exactly when it has at least five likes: five are enough, four are not, and popularity never turns off as likes grow |
| Notifications.NotificationTable.Create | app/models/reply.rb:86 | creating a notification appends exactly that row and keeps every earlier row |
| Notifications.NotificationTable.DeleteForReply | app/models/reply.rb:96-98 | destroy leaves the table holding exactly `WithoutReply` of the old rows |
| Notifications.WithoutReply | app/models/reply.rb:98 | the surviving rows are no more than before, each one of the old rows, none owned by the destroyed reply |
| Notifications.WithoutReplyRemovesExactly | app/models/reply.rb:96-98 | after cleanup no row of the destroyed reply remains, and every other row keeps its multiplicity |
| Notifications.WithoutReplyAppend | app/models/reply.rb:96-98 | cleanup keeps the relative order of the surviving rows (it distributes over concatenation) |
| Notifications.WithoutReplyIdentity | app/models/reply.rb:96-98 | a table with no row of the reply is left unchanged |
| Notifications.DestroyThreeOfFive | app/models/reply.rb:96-98 | rows [a, x, b, y, c], with a, b, c owned by reply 7: destroying reply 7 leaves [x, y] |
| Notifications.SendTopicReplyNotification | app/models/reply.rb:65-89 | returns false and writes nothing when the reply or its topic is missing; otherwise appends one TopicReply row per element of `Recipients`, owner first, then followers in order |
| Notifications.Recipients | app/models/reply.rb:70-87 | at most one notification per follower entry plus one for the owner, and never one for the author |
| Notifications.RecipientsFromTopic | app/models/reply.rb:70-87 | only the topic owner and the topic's followers are ever notified |
| Notifications.NotifyFollowers | app/models/reply.rb:80-87 | the follower loop appends one TopicReply row per entry of `follower_ids` that is neither already notified nor the author, in list order |
| Notifications.FollowerRecipientsAppend | app/models/reply.rb:80-87 | follower notifications for a split follower list are those of each part, in order |
| Notifications.FollowerRecipientsCount | app/models/reply.rb:80-87 | a follower gets one notification per occurrence in the list unless already notified or the author, and then none |
| Notifications.RecipientsCount | app/models/reply.rb:70-87 | per user: 0 notifications for the author or a mentioned user, exactly 1 for the owner, otherwise the number of times they appear in `follower_ids` |
| Notifications.RecipientsExcludeAuthorAndMentioned | app/models/reply.rb:70-84 | the author and the mentioned users are never notified |
| Notifications.OwnerFirstAndOnce | app/models/reply.rb:70-77 | the owner is notified if and only if they are neither author nor mentioned; then they are first and appear once |
| Notifications.RecipientsDistinct | app/models/reply.rb:70-87 | with no duplicate followers, no user is notified twice |
| Notifications.DuplicateFollowerNotifiedTwice | app/models/reply.rb:80-87 | owner 1, followers [2, 2], author 3: recipients are [1, 2, 2] |
| Notifications.OnlyOwnerNotified | app/models/reply.rb:70-87 | owner 1, followers [2, 3, 2], author 2, user 3 mentioned: only the owner is notified |
| HotScore.DecayFor | app/models/reply.rb:107-117 | the divisor is the period's unit (a day for week, an hour for day), and divisor times period length is the period (a week, a day, or 1) |
| HotScore.Contribution | app/models/reply.rb:129-130 | a reply no later than `now` adds at most `period_length`, exactly `period_length` when younger than one divisor, and a reply dated after `now` adds at least `period_length` |
| HotScore.DecayedScore | app/models/reply.rb:123-133 | a single creation time scores its own contribution |
| HotScore.DecayedScoreAppend | app/models/reply.rb:123-133 | a topic's score is additive over any split of its replies, so grouping them in parts gives the same sum |
| HotScore.TruncatedQuotient | app/models/reply.rb:129 | the quotient is truncated toward zero for both signs of the age |
| HotScore.CreatedAtsNonEmpty | app/models/reply.rb:118-120 | a topic has emitted values exactly when one of the replies belongs to it |
| HotScore.Reduce | app/models/reply.rb:123-133 | the reduce loop returns the sum of the contributions of its values |
| HotScore.Finalize | app/models/reply.rb:137-144 | a reduced score passes through unchanged; a lone emitted time gets the same score as a one-element reduce |
| HotScore.HotTopicScores | app/models/reply.rb:106-147 | the job's keys are exactly the topics with a reply, and each value is the decayed sum over that topic's replies, whether one or many |
| HotScore.FirstSeenListsTopics | app/models/reply.rb:118-120 | the emitted topic order lists every topic of the replies exactly once |
| HotScore.GroupByTopic | app/models/reply.rb:118-120 | the map step groups each topic's creation times in reply order, and its keys are exactly the listed topics |
| HotScore.MapReduce | app/models/reply.rb:106-147 | map, then reduce on groups and finalize on every group, yields exactly `HotTopicScores`, with topics in first-emitted order |
| HotScore.ContributionInRange | app/models/reply.rb:129-130 | a reply inside the period's window contributes between 1 and `period_length` |
| HotScore.DecayedScoreInRange | app/models/reply.rb:123-133 | a topic with k in-window replies scores between k and k times `period_length` |
| HotScore.RecentInWindow | app/models/reply.rb:161 | the fetched replies are exactly the inputs created after `now` minus one period |
| HotScore.Recent | app/models/reply.rb:161 | the fetch returns no more replies than it is given, each one of them and created after `now` minus one week or one day |
| HotScore.RecentAppend | app/models/reply.rb:161 | the fetch keeps the replies in their order: filtering a concatenation concatenates the filtered parts |
| HotScore.RecentCount | app/models/reply.rb:161 | a reply inside the window is fetched as many times as it occurs, one outside it never |
| HotScore.HotTopicScoresInRange | app/models/reply.rb:106-161 | every score of the fetched replies is at least 1 and lies between k and k times `period_length` for its k replies, given no reply is dated after `now` |
| HotScore.DayScoreWithOldReply | app/models/reply.rb:107-133 | day period: a reply made now scores 24 and one 25 hours old scores -1, a total of 23 |
| HotScore.DayTopicScoreWithOldReply | app/models/reply.rb:106-147 | two replies to topic 9, made now and 25 hours ago: the day job yields exactly {9: 23} |
| HotCache.CacheKey | app/models/reply.rb:153 | the key starts with the period name and is ten characters longer |
| HotCache.CacheKeyInjective | app/models/reply.rb:153 | distinct periods never share a key |
| HotCache.LiveBeforeExpiry | app/models/reply.rb:160 | a key that exists at some time existed at every earlier time, and no longer exists at its expiry time |
| HotCache.Refresh | app/models/reply.rb:160-164 | while the period's key is live the store is unchanged; in every case every other key is left exactly as it was |
| HotCache.Store | app/models/reply.rb:163-164 | the key holds the new ranking when it is non-empty and is absent otherwise; every other key is left exactly as it was |
| HotCache.TtlSeconds | app/models/reply.rb:154-159 | the week ranking lives an hour, the day ranking ten minutes |
| HotCache.StoreKeepsValid | app/models/reply.rb:163-164 | storing a ranking whose member list names each scored topic once keeps every stored sorted set well formed |
| HotCache.RankingLists | app/models/reply.rb:161-163 | the ranking written on a miss lists each scored topic exactly once |
| HotCache.BestNotTaken | app/models/reply.rb:166 | finds the highest-scored member not yet taken, or reports that every member is taken |
| HotCache.RevRange | app/models/reply.rb:166 | returns the n best-scored members (all when fewer), distinct, in non-increasing score order, none left out scoring higher |
| HotCache.HotTopicCache.constructor | app/models/reply.rb:152-153 | the store starts empty |
| HotCache.HotTopicCache.Fill | app/models/reply.rb:153-165 | leaves a live key alone; on a miss stores the scores of the last period's replies under `<period>_hot_topic` with the period's TTL |
| HotCache.HotTopicCache.TopIds | app/models/reply.rb:166 | returns the top five of the live `week_hot_topic` ranking, or nothing when it does not exist |
| HotCache.HotTopicCache.GetHotTopic | app/models/reply.rb:152-168 | fills on a miss, then returns the top five ids of the week ranking |
| HotCache.RefreshIdleWhileLive | app/models/reply.rb:160-164 | within the TTL of a fresh ranking, a repeat call changes nothing, whatever replies arrived meanwhile |
| HotCache.RefreshOnMiss | app/models/reply.rb:160-164 | when the key is absent or expired, the call stores the scores of the replies of the period ending now, expiring exactly the TTL later and no longer live from then on; with no such reply the key stays absent |
| HotCache.WeekMissReadsFreshRanking | app/models/reply.rb:153-166 | on a week miss, the top-five read sees the freshly stored week ranking |
| HotCache.DayCallReadsWeekRanking | app/models/reply.rb:153-166 | a day call never changes what the read sees: the week key |
| HotCache.DayCallOnEmptyStore | app/models/reply.rb:153-166 | on an empty store a day call stores the day ranking, yet the read sees no ranking |
| HotCache.TopIsUnique | app/models/reply.rb:166 | with distinct scores there is exactly one top-n list |
| HotCache.TopScoreBound | app/models/reply.rb:166 | two top-n lists that agree before position k: the member at k of either scores no less than the member at k of the other |
| HotCache.RepeatCallSameIds | app/models/reply.rb:160-166 | while both keys are live, a repeat call leaves the store unchanged and returns the same ids when no two week scores tie |

## Left out

- Persistence, validations, markdown rendering and mention extraction: a reply's `mentioned_user_ids` is an input field.
- The delayed dispatch of the fanout from the create callback: the model runs the fanout directly.
- The `update_parent_topic` callbacks, the `per_page` setting and the `puts` trace line: they do not affect the modelled state.
- The soft delete done by `super` in `destroy`, and `delete_notifiaction_mentions`: their code is not part of this model. Only the `delete_all` of the reply's own notifications is modelled.
- Appending the owner id to `notified_user_ids` also appends it to the reply's in-memory `mentioned_user_ids` array, since the two are the same array. Nothing here reads it afterwards, so the model keeps a separate sequence.
- Floating point: `(now - created_at) / divisor` is taken as exact division, then truncated toward zero. `parseInt` applied to an exponent-notation string is not modelled. Scores are integers, not floats.
- The map/reduce engine: re-reduce of partial results and the engine's grouping order. The emitted topic order is taken as first-seen in the fetched replies.
- `finalize` reads `now`, which only `reduce` declares. The model uses one clock for both, as the intended arithmetic does.
- HotCache.HotTopicCache.Fill: runs the `exists`, `zadd`, `expire` sequence as one uninterrupted step, and so does `Refresh`. In Redis these are separate commands. Two callers can both find the key absent, and the second `zadd` then merges its members into the first caller's set instead of replacing it, so a topic only in the first ranking stays. A failure between `zadd` and `expire` leaves a key with no expiry, which is then never refreshed. Neither effect is modelled.
- Redis itself: the network client, a failure of `zadd`, and whether a client raises on an empty `zadd`. An empty ranking leaves the key absent.
- HotCache.HotTopicCache.GetHotTopic: requires the period to be week or day, and so do `Fill`, `Refresh` and `Recent`. For any other period `redis_expire` is nil and `1.send(period)` may raise, which is not modelled.
- `1.week.ago` and `1.day.ago` are taken as exactly 7 × 24 and 24 hours before `now`. Calendar arithmetic across a daylight-saving change is not modelled.
- `Topic.find(hot_topic_ids)`: `GetHotTopic` returns the ids, not the loaded topics.
- HotCache.RevRange: equal scores may come back in any order; Redis orders them by member, which is not modelled.
