/** The decayed hot-topic score: the arithmetic of the map/reduce/finalize job
    that sums, per topic, how recent each of its replies is. Times are in
    milliseconds since the epoch; `now` is one explicit clock. */
module HotScore {
  import opened Entities

  const HourMs: int := 3600000
  const DayMs: int := 24 * HourMs
  const WeekMs: int := 7 * DayMs

  /** The `(divisor, period_length)` pair a period selects: a reply's age is
      counted in units of `divisor` milliseconds, from a start of `periodLength`. */
  datatype Decay = Decay(divisor: int, periodLength: int)

  /** The period table: week counts days from 7, day counts hours from 24,
      any other key degenerates to (1, 1). */
  function DecayFor(period: string): (d: Decay)
    ensures d.divisor >= 1 && d.periodLength >= 1
    ensures period == "week" ==> d.divisor == DayMs && d.divisor * d.periodLength == WeekMs
    ensures period == "day" ==> d.divisor == HourMs && d.divisor * d.periodLength == DayMs
    ensures period != "week" && period != "day" ==> d.divisor * d.periodLength == 1
  {
    match period
    case "week" => Decay(HourMs * 24, 7)
    case "day" => Decay(HourMs, 24)
    case _ => Decay(1, 1)
  }

  /** `parseInt(a / d)`: the quotient truncated toward zero, so the
      remainder takes the sign of `a`. */
  function TruncatedQuotient(a: int, d: int): (q: int)
    requires d >= 1
    ensures a >= 0 ==> 0 <= q && q * d <= a < q * d + d
    ensures a < 0 ==> q <= 0 && a <= q * d < a + d
  {
    if a >= 0 then a / d else -((-a) / d)
  }

  /** What one reply created at `createdAt` adds to its topic's score. */
  function Contribution(d: Decay, now: int, createdAt: int): (c: int)
    requires d.divisor >= 1
    ensures createdAt <= now ==> c <= d.periodLength
    ensures createdAt <= now < createdAt + d.divisor ==> c == d.periodLength
    ensures now < createdAt ==> c >= d.periodLength
  {
    d.periodLength - TruncatedQuotient(now - createdAt, d.divisor)
  }

  /** The score of a topic whose replies were created at `createdAts`: the sum
      of their contributions. */
  function DecayedScore(createdAts: seq<int>, d: Decay, now: int): (score: int)
    requires d.divisor >= 1
    ensures |createdAts| == 1 ==> score == Contribution(d, now, createdAts[0])
  {
    if createdAts == [] then 0
    else DecayedScore(createdAts[..|createdAts| - 1], d, now) + Contribution(d, now, createdAts[|createdAts| - 1])
  }

  /** The map step's output for one topic: the creation times of its replies, in order. */
  function CreatedAts(replies: seq<Reply>, t: TopicId): seq<int>
  {
    if replies == [] then []
    else
      var last := replies[|replies| - 1];
      CreatedAts(replies[..|replies| - 1], t) + (if last.topicId == t then [last.createdAt] else [])
  }

  /** The keys the map step emits. */
  function Topics(replies: seq<Reply>): set<TopicId> {
    set r | r in replies :: r.topicId
  }

  /** A topic has emitted values exactly when one of the replies belongs to it. */
  lemma {:induction false} CreatedAtsNonEmpty(replies: seq<Reply>, t: TopicId)
    ensures CreatedAts(replies, t) != [] <==> t in Topics(replies)
  {
    if replies != [] {
      var init := replies[..|replies| - 1];
      var last := replies[|replies| - 1];
      assert replies == init + [last];
      assert Topics(replies) == Topics(init) + {last.topicId};
      CreatedAtsNonEmpty(init, t);
    }
  }

  /** The reduce function: a loop summing each value's contribution. */
  method Reduce(values: seq<int>, d: Decay, now: int) returns (score: int)
    requires d.divisor >= 1
    ensures score == DecayedScore(values, d, now)
  {
    score := 0;
    for i := 0 to |values|
      invariant score == DecayedScore(values[..i], d, now)
    {
      assert values[..i + 1][..i] == values[..i];
      score := score + Contribution(d, now, values[i]);
    }
    assert values[..|values|] == values;
  }

  /** What finalize receives: a single emitted creation time that reduce never
      saw (a Date object), or a score reduce already computed. */
  datatype Partial = Emitted(createdAt: int) | Reduced(score: int)

  /** The finalize function: scores a lone creation time, passes a reduced score through. */
  function Finalize(v: Partial, d: Decay, now: int): (r: int)
    requires d.divisor >= 1
    ensures v.Reduced? ==> r == v.score
    ensures v.Emitted? ==> r == DecayedScore([v.createdAt], d, now)
  {
    match v
    case Emitted(createdAt) => Contribution(d, now, createdAt)
    case Reduced(score) => score
  }

  /** The job's result: for every topic with a reply, the finalized value of its
      group. Whether a topic had one reply (finalize only) or several (reduce,
      then finalize), its score is the sum of its replies' contributions. */
  function HotTopicScores(replies: seq<Reply>, period: string, now: int): (scores: map<TopicId, int>)
    ensures scores.Keys == Topics(replies)
    ensures forall t :: t in scores ==> scores[t] == DecayedScore(CreatedAts(replies, t), DecayFor(period), now)
  {
    var d := DecayFor(period);
    map t | t in Topics(replies) ::
      var vs := CreatedAts(replies, t);
      if |vs| == 1 then Finalize(Emitted(vs[0]), d, now) else Finalize(Reduced(DecayedScore(vs, d, now)), d, now)
  }

  /** The topics of the replies, each once, in the order of their first reply. */
  function FirstSeen(replies: seq<Reply>): seq<TopicId>
  {
    if replies == [] then []
    else
      var order := FirstSeen(replies[..|replies| - 1]);
      var t := replies[|replies| - 1].topicId;
      if t in order then order else order + [t]
  }

  /** No element of `s` occurs twice. */
  predicate Distinct<T(==)>(s: seq<T>) {
    forall i, j :: 0 <= i < j < |s| ==> s[i] != s[j]
  }

  /** `FirstSeen` lists every topic of the replies exactly once. */
  lemma {:induction false} FirstSeenListsTopics(replies: seq<Reply>)
    ensures Distinct(FirstSeen(replies))
    ensures forall t :: t in FirstSeen(replies) <==> t in Topics(replies)
    ensures forall i :: 0 <= i < |FirstSeen(replies)| ==> FirstSeen(replies)[i] in Topics(replies)
  {
    if replies != [] {
      var init := replies[..|replies| - 1];
      var last := replies[|replies| - 1];
      assert replies == init + [last];
      FirstSeenListsTopics(init);
      forall t
        ensures t in Topics(replies) <==> t in Topics(init) || t == last.topicId
      {
        if t in Topics(replies) {
          var r :| r in replies && r.topicId == t;
          if r != last {
            assert r in init;
          }
        }
      }
    }
  }

  /** `groups` and `order` are what the map step has emitted for `replies`:
      each topic's creation times in reply order, and the topics in the order
      they were first emitted. */
  ghost predicate Grouped(replies: seq<Reply>, groups: map<TopicId, seq<int>>, order: seq<TopicId>) {
    && order == FirstSeen(replies)
    && (forall t :: t in groups <==> t in order)
    && (forall t {:trigger CreatedAts(replies, t)} :: CreatedAts(replies, t) == if t in groups then groups[t] else [])
  }

  /** The map step: the creation times of the replies grouped by topic in reply
      order, and the topics in the order they were first emitted. */
  method GroupByTopic(replies: seq<Reply>) returns (groups: map<TopicId, seq<int>>, order: seq<TopicId>)
    ensures order == FirstSeen(replies)
    ensures forall t :: t in groups <==> t in order
    ensures forall t :: t in groups ==> groups[t] == CreatedAts(replies, t)
  {
    groups, order := map[], [];
    for i := 0 to |replies|
      invariant Grouped(replies[..i], groups, order)
    {
      var r := replies[i];
      assert replies[..i + 1] == replies[..i] + [r];
      if r.topicId in groups {
        GroupedSnocSeen(replies[..i], r, groups, order);
        groups := groups[r.topicId := groups[r.topicId] + [r.createdAt]];
      } else {
        GroupedSnocNew(replies[..i], r, groups, order);
        groups := groups[r.topicId := [r.createdAt]];
        order := order + [r.topicId];
      }
    }
    assert replies[..|replies|] == replies;
  }

  /** A map step on a topic already seen: its creation time joins that
      topic's group and the order stays. */
  lemma GroupedSnocSeen(replies: seq<Reply>, r: Reply, groups: map<TopicId, seq<int>>, order: seq<TopicId>)
    requires Grouped(replies, groups, order) && r.topicId in groups
    ensures Grouped(replies + [r], groups[r.topicId := groups[r.topicId] + [r.createdAt]], order)
  {
    var groups' := groups[r.topicId := groups[r.topicId] + [r.createdAt]];
    assert FirstSeen(replies + [r]) == order by {
      assert r.topicId in order;
      FirstSeenSnoc(replies, r);
    }
    assert forall t :: t in groups' <==> t in order by {
      assert groups'.Keys == groups.Keys;
    }
    assert forall t :: CreatedAts(replies + [r], t) == if t in groups' then groups'[t] else [] by {
      GroupsSnoc(replies, r, groups, groups[r.topicId] + [r.createdAt]);
    }
  }

  /** A map step on a new topic: it starts a group of one and goes last in the order. */
  lemma GroupedSnocNew(replies: seq<Reply>, r: Reply, groups: map<TopicId, seq<int>>, order: seq<TopicId>)
    requires Grouped(replies, groups, order) && r.topicId !in groups
    ensures Grouped(replies + [r], groups[r.topicId := [r.createdAt]], order + [r.topicId])
  {
    FirstSeenSnoc(replies, r);
    GroupsSnoc(replies, r, groups, [r.createdAt]);
    forall t
      ensures t in groups[r.topicId := [r.createdAt]] <==> t in order + [r.topicId]
    {
    }
  }

  /** The groups after a map step: the reply's topic gets `group`, the group
      it had plus the reply's creation time, and every other topic keeps its own. */
  lemma GroupsSnoc(replies: seq<Reply>, r: Reply, groups: map<TopicId, seq<int>>, group: seq<int>)
    requires forall t :: CreatedAts(replies, t) == if t in groups then groups[t] else []
    requires group == (if r.topicId in groups then groups[r.topicId] else []) + [r.createdAt]
    ensures forall t :: CreatedAts(replies + [r], t) == if t in groups[r.topicId := group] then groups[r.topicId := group][t] else []
  {
    CreatedAtsSnoc(replies, r);
  }

  /** Appending a reply lists its topic last if it is new. */
  lemma FirstSeenSnoc(replies: seq<Reply>, r: Reply)
    ensures FirstSeen(replies + [r])
         == if r.topicId in FirstSeen(replies) then FirstSeen(replies) else FirstSeen(replies) + [r.topicId]
  {
    assert (replies + [r])[..|replies|] == replies;
  }

  /** Appending a reply extends its own topic's creation times and no other's. */
  lemma CreatedAtsSnoc(replies: seq<Reply>, r: Reply)
    ensures forall t ::
              CreatedAts(replies + [r], t) == CreatedAts(replies, t) + (if r.topicId == t then [r.createdAt] else [])
  {
    assert (replies + [r])[..|replies|] == replies;
  }

  /** `get_hot_topic_from_mongodb`: groups the replies by topic (map), runs reduce
      on groups of several values and finalize on every group. Returns the
      scores and the topics in the order the job emitted them. */
  method MapReduce(replies: seq<Reply>, period: string, now: int)
    returns (scores: map<TopicId, int>, order: seq<TopicId>)
    ensures scores == HotTopicScores(replies, period, now)
    ensures order == FirstSeen(replies)
  {
    var d := DecayFor(period);
    var groups;
    groups, order := GroupByTopic(replies);
    FirstSeenListsTopics(replies);
    scores := map[];
    for i := 0 to |order|
      invariant forall t :: t in scores <==> t in order[..i]
      invariant forall t :: t in scores ==> scores[t] == DecayedScore(CreatedAts(replies, t), d, now)
    {
      var t := order[i];
      var vs := groups[t];
      var v;
      if |vs| == 1 {
        v := Finalize(Emitted(vs[0]), d, now);
      } else {
        var s := Reduce(vs, d, now);
        v := Finalize(Reduced(s), d, now);
      }
      assert order[..i + 1] == order[..i] + [t];
      scores := scores[t := v];
    }
    assert order[..|order|] == order;
    var expected := HotTopicScores(replies, period, now);
    assert forall t :: t in scores <==> t in expected;
    assert scores.Keys == expected.Keys;
  }

  /** A reply inside the window `(now - divisor * periodLength, now]` adds
      between 1 and `periodLength`. */
  lemma ContributionInRange(d: Decay, now: int, createdAt: int)
    requires d.divisor >= 1 && d.periodLength >= 1
    requires now - d.divisor * d.periodLength < createdAt <= now
    ensures 1 <= Contribution(d, now, createdAt) <= d.periodLength
  {
    var q := TruncatedQuotient(now - createdAt, d.divisor);
    if q >= d.periodLength {
      assert q * d.divisor >= d.periodLength * d.divisor by {
        MulMonotone(d.periodLength, q, d.divisor);
      }
    }
  }

  lemma MulSucc(k: int, l: int)
    ensures k * l + l == (k + 1) * l
  {
  }

  lemma MulMonotone(a: int, b: int, c: int)
    requires a <= b && c >= 0
    ensures a * c <= b * c
  {
    assert b * c - a * c == (b - a) * c;
  }

  /** A topic whose replies all lie in the window scores at least one per reply
      and at most `periodLength` per reply. */
  lemma {:induction false} DecayedScoreInRange(createdAts: seq<int>, d: Decay, now: int)
    requires d.divisor >= 1 && d.periodLength >= 1
    requires forall i :: 0 <= i < |createdAts| ==>
      now - d.divisor * d.periodLength < createdAts[i] <= now
    ensures |createdAts| <= DecayedScore(createdAts, d, now) <= |createdAts| * d.periodLength
  {
    if createdAts != [] {
      var n := |createdAts|;
      var init := createdAts[..n - 1];
      DecayedScoreInRange(init, d, now);
      ContributionInRange(d, now, createdAts[n - 1]);
      assert DecayedScore(createdAts, d, now) == DecayedScore(init, d, now) + Contribution(d, now, createdAts[n - 1]);
      MulSucc(n - 1, d.periodLength);
    }
  }

  /** The replies the cache fill scores: those created after `1.period.ago`. */
  function Recent(replies: seq<Reply>, period: string, now: int): (recent: seq<Reply>)
    requires period == "week" || period == "day"
    ensures |recent| <= |replies|
    ensures forall i :: 0 <= i < |recent| ==>
      recent[i] in replies && recent[i].createdAt > now - (if period == "week" then WeekMs else DayMs)
  {
    var windowMs := if period == "week" then WeekMs else DayMs;
    if replies == [] then []
    else
      var last := replies[|replies| - 1];
      Recent(replies[..|replies| - 1], period, now) + (if last.createdAt > now - windowMs then [last] else [])
  }

  /** The filter keeps exactly the inputs that lie inside the window. */
  lemma {:induction false} RecentInWindow(replies: seq<Reply>, period: string, now: int)
    requires period == "week" || period == "day"
    ensures var d := DecayFor(period);
      forall r :: r in Recent(replies, period, now) <==>
        r in replies && r.createdAt > now - d.divisor * d.periodLength
  {
    if replies != [] {
      var init := replies[..|replies| - 1];
      RecentInWindow(init, period, now);
      assert replies == init + [replies[|replies| - 1]];
    }
  }

  /** The filter keeps the order of the replies it keeps: filtering a
      concatenation concatenates the filtered parts. */
  lemma {:induction false} RecentAppend(a: seq<Reply>, b: seq<Reply>, period: string, now: int)
    requires period == "week" || period == "day"
    ensures Recent(a + b, period, now) == Recent(a, period, now) + Recent(b, period, now)
  {
    if b == [] {
      assert a + b == a;
    } else {
      var init := b[..|b| - 1];
      assert (a + b)[..|a + b| - 1] == a + init;
      RecentAppend(a, init, period, now);
    }
  }

  /** Every reply inside the window is kept as many times as it occurs; every
      other reply is dropped. */
  lemma {:induction false} RecentCount(replies: seq<Reply>, period: string, now: int, r: Reply)
    requires period == "week" || period == "day"
    ensures var d := DecayFor(period);
      multiset(Recent(replies, period, now))[r]
        == if r.createdAt > now - d.divisor * d.periodLength then multiset(replies)[r] else 0
  {
    if replies != [] {
      var init := replies[..|replies| - 1];
      assert replies == init + [replies[|replies| - 1]];
      RecentCount(init, period, now, r);
    }
  }

  /** Scores are additive: the replies of a topic can be summed in parts. */
  lemma {:induction false} DecayedScoreAppend(a: seq<int>, b: seq<int>, d: Decay, now: int)
    requires d.divisor >= 1
    ensures DecayedScore(a + b, d, now) == DecayedScore(a, d, now) + DecayedScore(b, d, now)
  {
    if b == [] {
      assert a + b == a;
    } else {
      var init := b[..|b| - 1];
      assert (a + b)[..|a + b| - 1] == a + init;
      DecayedScoreAppend(a, init, d, now);
    }
  }

  lemma {:induction false} CreatedAtsFrom(replies: seq<Reply>, t: TopicId, i: int)
    requires 0 <= i < |CreatedAts(replies, t)|
    ensures exists r :: r in replies && r.topicId == t && r.createdAt == CreatedAts(replies, t)[i]
  {
    var init := replies[..|replies| - 1];
    var last := replies[|replies| - 1];
    assert replies == init + [last];
    if i < |CreatedAts(init, t)| {
      CreatedAtsFrom(init, t, i);
      var r :| r in init && r.topicId == t && r.createdAt == CreatedAts(init, t)[i];
      assert r in replies;
    } else {
      assert last in replies;
    }
  }

  /** Scored over the last period, with no reply from the future, every hot topic
      has a positive score of at most `periodLength` per reply. */
  lemma HotTopicScoresInRange(replies: seq<Reply>, period: string, now: int)
    requires period == "week" || period == "day"
    requires forall r :: r in replies ==> r.createdAt <= now
    ensures var d := DecayFor(period);
      var scores := HotTopicScores(Recent(replies, period, now), period, now);
      forall t :: t in scores ==>
        1 <= |CreatedAts(Recent(replies, period, now), t)| <= scores[t]
          <= |CreatedAts(Recent(replies, period, now), t)| * d.periodLength
  {
    var d := DecayFor(period);
    var recent := Recent(replies, period, now);
    RecentInWindow(replies, period, now);
    forall t | t in Topics(recent)
      ensures 1 <= |CreatedAts(recent, t)| <= DecayedScore(CreatedAts(recent, t), d, now)
                <= |CreatedAts(recent, t)| * d.periodLength
    {
      CreatedAtsNonEmpty(recent, t);
      var vs := CreatedAts(recent, t);
      forall i | 0 <= i < |vs|
        ensures now - d.divisor * d.periodLength < vs[i] <= now
      {
        CreatedAtsFrom(recent, t, i);
      }
      DecayedScoreInRange(vs, d, now);
    }
  }

  /** A reply created now scores 24 on the day scale; one created 25 hours ago
      scores 24 - 25 = -1; together they score 23. */
  lemma DayScoreWithOldReply(now: int)
    ensures DecayedScore([now, now - 25 * HourMs], DecayFor("day"), now) == 23
  {
    var d := DecayFor("day");
    assert d == Decay(HourMs, 24);
    var vs := [now, now - 25 * HourMs];
    assert vs[..1] == [now] && [now][..0] == [];
    assert now - (now - 25 * HourMs) == 90000000;
    assert TruncatedQuotient(90000000, 3600000) == 25;
    assert Contribution(d, now, now) == 24;
    assert Contribution(d, now, now - 25 * HourMs) == -1;
    assert DecayedScore([now], d, now) == 24;
  }

  /** Two replies to topic 9, one now and one 25 hours old: the job scores
      topic 9 at 23 and no other topic. */
  lemma DayTopicScoreWithOldReply(now: int)
    ensures HotTopicScores([Reply(1, 9, 1, [], 0, now), Reply(2, 9, 2, [], 0, now - 25 * HourMs)], "day", now)
         == map[9 := 23]
  {
    var replies := [Reply(1, 9, 1, [], 0, now), Reply(2, 9, 2, [], 0, now - 25 * HourMs)];
    assert replies[..1] == [replies[0]] && [replies[0]][..0] == [];
    assert CreatedAts(replies[..1], 9) == [now];
    assert CreatedAts(replies, 9) == [now, now - 25 * HourMs];
    assert Topics(replies) == {9};
    DayScoreWithOldReply(now);
  }
}
