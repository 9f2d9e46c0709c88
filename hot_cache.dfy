/** The hot-topic cache: a key/value store of scored rankings with expiry times,
    filled on a miss from the decayed scores and read back as the top five ids. */
module HotCache {
  import opened Entities
  import opened HotScore

  /** A cached sorted set: each member's score, the members in insertion order,
      and the time the key expires, in ms. */
  datatype Entry = Entry(scores: map<TopicId, int>, members: seq<TopicId>, expiry: int)

  /** `members` lists the keys of `scores`, each once. */
  ghost predicate Lists(members: seq<TopicId>, scores: map<TopicId, int>) {
    && Distinct(members)
    && (forall i :: 0 <= i < |members| ==> members[i] in scores)
    && (forall t :: t in scores ==> t in members)
  }

  /** The key a period's ranking is written under. */
  function CacheKey(period: string): (key: string)
    ensures |key| == |period| + 10 && key[..|period|] == period
  {
    period + "_hot_topic"
  }

  /** Distinct periods never share a key. */
  lemma CacheKeyInjective(a: string, b: string)
    ensures CacheKey(a) == CacheKey(b) ==> a == b
  {
    if CacheKey(a) == CacheKey(b) {
      assert |a| == |b|;
      assert a == CacheKey(a)[..|a|] == CacheKey(b)[..|b|] == b;
    }
  }

  /** The key the top-five read uses, whatever the period. */
  const ReadKey: string := "week_hot_topic"

  /** How many ids the read returns (`zrevrange key, 0, 4`). */
  const TopCount: nat := 5

  /** The expiry set on a freshly written ranking, in seconds. */
  function TtlSeconds(period: string): (ttl: int)
    requires period == "week" || period == "day"
    ensures ttl > 0
    ensures period == "week" ==> ttl * 1000 == HourMs
    ensures period == "day" ==> ttl * 6 * 1000 == HourMs
  {
    if period == "week" then 3600 else 600
  }

  /** A key exists while it is present and not yet expired. */
  predicate Live(entries: map<string, Entry>, key: string, now: int) {
    key in entries && now < entries[key].expiry
  }

  /** Existence only ends: a key live at some time was live at every earlier time. */
  lemma LiveBeforeExpiry(entries: map<string, Entry>, key: string, now: int, now2: int)
    requires now <= now2
    ensures Live(entries, key, now2) ==> Live(entries, key, now)
    ensures key in entries ==> !Live(entries, key, entries[key].expiry)
  {
  }

  /** What a read of `key` sees: the live ranking, or nothing. */
  function LiveScores(entries: map<string, Entry>, key: string, now: int): map<TopicId, int> {
    if Live(entries, key, now) then entries[key].scores else map[]
  }

  /** The store after the check-then-fill step of `get_hot_topic`: untouched
      while the period's key is live; otherwise the key holds the scores of the
      last period's replies with a fresh expiry (or, with no such reply, is absent). */
  function Refresh(entries: map<string, Entry>, period: string, replies: seq<Reply>, now: int): (after: map<string, Entry>)
    requires period == "week" || period == "day"
    ensures Live(entries, CacheKey(period), now) ==> after == entries
    ensures forall k :: k != CacheKey(period) ==>
      (k in after <==> k in entries) && (k in entries ==> after[k] == entries[k])
  {
    var key := CacheKey(period);
    if Live(entries, key, now) then entries
    else
      var recent := Recent(replies, period, now);
      Store(entries, key, HotTopicScores(recent, period, now), FirstSeen(recent), now + TtlSeconds(period) * 1000)
  }

  /** `zadd` of a ranking into an absent key, then `expire`: an empty ranking
      leaves no key behind. */
  function Store(entries: map<string, Entry>, key: string, scores: map<TopicId, int>,
                 members: seq<TopicId>, expiry: int): (after: map<string, Entry>)
    ensures key in after <==> scores != map[]
    ensures key in after ==> after[key] == Entry(scores, members, expiry)
    ensures forall k :: k != key ==> (k in after <==> k in entries) && (k in entries ==> after[k] == entries[k])
  {
    if scores == map[] then entries - {key}
    else entries[key := Entry(scores, members, expiry)]
  }

  /** Every stored sorted set lists its members once each. */
  ghost predicate ValidStore(entries: map<string, Entry>) {
    forall k :: k in entries ==> Lists(entries[k].members, entries[k].scores)
  }

  lemma StoreKeepsValid(entries: map<string, Entry>, key: string, scores: map<TopicId, int>,
                        members: seq<TopicId>, expiry: int)
    requires ValidStore(entries) && Lists(members, scores)
    ensures ValidStore(Store(entries, key, scores, members, expiry))
  {
  }

  /** The ranking written on a miss lists each scored topic once. */
  lemma RankingLists(recent: seq<Reply>, period: string, now: int)
    ensures Lists(FirstSeen(recent), HotTopicScores(recent, period, now))
  {
    FirstSeenListsTopics(recent);
  }

  /** `ids` are the `n` best-scored members of `z` (all of them when there are
      fewer), distinct, in non-increasing score order; ties are in any order. */
  ghost predicate IsTop(z: map<TopicId, int>, n: nat, ids: seq<TopicId>) {
    && |ids| <= n
    && (|ids| < n ==> forall t :: t in z ==> t in ids)
    && (forall i :: 0 <= i < |ids| ==> ids[i] in z)
    && Distinct(ids)
    && (forall i, j :: 0 <= i < j < |ids| ==> z[ids[i]] >= z[ids[j]])
    && (forall t, i :: t in z && t !in ids && 0 <= i < |ids| ==> z[t] <= z[ids[i]])
  }

  /** The best-scored member not yet taken, if any is left. */
  method BestNotTaken(z: map<TopicId, int>, members: seq<TopicId>, taken: seq<TopicId>)
    returns (found: bool, best: TopicId)
    requires Lists(members, z)
    ensures found ==> best in z && best !in taken
    ensures found ==> forall t :: t in z && t !in taken ==> z[t] <= z[best]
    ensures !found ==> forall t :: t in z ==> t in taken
  {
    found, best := false, 0;
    for i := 0 to |members|
      invariant found ==> best in z && best !in taken
      invariant forall j :: 0 <= j < i && members[j] !in taken ==> found && z[members[j]] <= z[best]
    {
      var t := members[i];
      if t !in taken && (!found || z[t] > z[best]) {
        found, best := true, t;
      }
    }
  }

  /** `zrevrange key, 0, n - 1`: the first `n` members of a sorted set by descending score. */
  method RevRange(z: map<TopicId, int>, members: seq<TopicId>, n: nat) returns (ids: seq<TopicId>)
    requires Lists(members, z)
    ensures IsTop(z, n, ids)
  {
    ids := [];
    var exhausted := false;
    while |ids| < n && !exhausted
      invariant |ids| <= n
      invariant exhausted ==> forall t :: t in z ==> t in ids
      invariant forall i :: 0 <= i < |ids| ==> ids[i] in z
      invariant Distinct(ids)
      invariant forall i, j :: 0 <= i < j < |ids| ==> z[ids[i]] >= z[ids[j]]
      invariant forall t, i :: t in z && t !in ids && 0 <= i < |ids| ==> z[t] <= z[ids[i]]
      decreases n - |ids|, if exhausted then 0 else 1
    {
      var found, best := BestNotTaken(z, members, ids);
      if found {
        ids := ids + [best];
      } else {
        exhausted := true;
      }
    }
  }

  /** The cache store, shared by every caller. */
  class HotTopicCache {
    var entries: map<string, Entry>

    ghost predicate Valid()
      reads this
    {
      ValidStore(entries)
    }

    constructor ()
      ensures Valid() && entries == map[]
    {
      entries := map[];
    }

    /** The check-then-fill half of `Reply.get_hot_topic`: when the period's key
        does not exist, scores the last period's replies and stores them under
        that key with the period's expiry (`zadd`, then `expire`). */
    method Fill(period: string, replies: seq<Reply>, now: int)
      requires period == "week" || period == "day"
      requires Valid()
      modifies this
      ensures Valid()
      ensures entries == Refresh(old(entries), period, replies, now)
    {
      var key := CacheKey(period);
      if !(key in entries && now < entries[key].expiry) {
        var recent := Recent(replies, period, now);
        var scores, order := MapReduce(recent, period, now);
        var expiry := now + TtlSeconds(period) * 1000;
        RankingLists(recent, period, now);
        StoreKeepsValid(entries, key, scores, order, expiry);
        if scores == map[] {
          entries := entries - {key};
        } else {
          entries := entries[key := Entry(scores, order, expiry)];
        }
      }
    }

    /** The read half: `zrevrange 'week_hot_topic', 0, 4`, the five best-scored
        topics of the live week ranking (none when it does not exist). */
    method TopIds(now: int) returns (ids: seq<TopicId>)
      requires Valid()
      ensures IsTop(LiveScores(entries, ReadKey, now), TopCount, ids)
    {
      if ReadKey in entries && now < entries[ReadKey].expiry {
        ids := RevRange(entries[ReadKey].scores, entries[ReadKey].members, TopCount);
      } else {
        ids := RevRange(map[], [], TopCount);
      }
    }

    /** `Reply.get_hot_topic`: fill on a miss, then read the top five ids,
        always from the week ranking. */
    method GetHotTopic(period: string, replies: seq<Reply>, now: int) returns (ids: seq<TopicId>)
      requires period == "week" || period == "day"
      requires Valid()
      modifies this
      ensures Valid()
      ensures entries == Refresh(old(entries), period, replies, now)
      ensures IsTop(LiveScores(entries, ReadKey, now), TopCount, ids)
    {
      Fill(period, replies, now);
      ids := TopIds(now);
    }
  }

  /** Within the TTL of a freshly written ranking, a repeat call recomputes
      nothing, whatever replies arrived meanwhile. */
  lemma RefreshIdleWhileLive(entries: map<string, Entry>, period: string,
                             replies: seq<Reply>, later: seq<Reply>, now: int, now2: int)
    requires period == "week" || period == "day"
    requires !Live(entries, CacheKey(period), now)
    requires HotTopicScores(Recent(replies, period, now), period, now) != map[]
    requires now <= now2 < now + TtlSeconds(period) * 1000
    ensures Live(Refresh(entries, period, replies, now), CacheKey(period), now2)
    ensures Refresh(Refresh(entries, period, replies, now), period, later, now2)
         == Refresh(entries, period, replies, now)
  {
  }

  /** On a miss (the key absent or expired) the call stores the scores of the
      replies of the period ending now, live until exactly `now` plus the TTL;
      with no such reply the key stays absent. */
  lemma RefreshOnMiss(entries: map<string, Entry>, period: string, replies: seq<Reply>, now: int)
    requires period == "week" || period == "day"
    requires !Live(entries, CacheKey(period), now)
    ensures var scores := HotTopicScores(Recent(replies, period, now), period, now);
      var after := Refresh(entries, period, replies, now);
      && (scores != map[] ==> LiveScores(after, CacheKey(period), now) == scores
                              && after[CacheKey(period)].expiry == now + TtlSeconds(period) * 1000)
      && (scores == map[] ==> CacheKey(period) !in after)
    ensures !Live(Refresh(entries, period, replies, now), CacheKey(period), now + TtlSeconds(period) * 1000)
  {
  }

  /** A week call on a miss is read back at once: the top-five read sees the
      fresh week ranking. */
  lemma WeekMissReadsFreshRanking(entries: map<string, Entry>, replies: seq<Reply>, now: int)
    requires !Live(entries, CacheKey("week"), now)
    ensures LiveScores(Refresh(entries, "week", replies, now), ReadKey, now)
         == HotTopicScores(Recent(replies, "week", now), "week", now)
  {
    assert CacheKey("week") == ReadKey;
  }

  /** A day call writes only the day key, so what it reads (the week key) is
      exactly what was there before: the day ranking is never returned. */
  lemma DayCallReadsWeekRanking(entries: map<string, Entry>, replies: seq<Reply>, now: int)
    ensures LiveScores(Refresh(entries, "day", replies, now), ReadKey, now) == LiveScores(entries, ReadKey, now)
  {
    assert CacheKey("day") != ReadKey by {
      assert CacheKey("day")[0] != ReadKey[0];
    }
  }

  /** A first day call on an empty store stores the day's ranking, yet the
      read that follows sees nothing: there is no week ranking to read. */
  lemma DayCallOnEmptyStore(replies: seq<Reply>, now: int)
    requires HotTopicScores(Recent(replies, "day", now), "day", now) != map[]
    ensures LiveScores(Refresh(map[], "day", replies, now), CacheKey("day"), now)
         == HotTopicScores(Recent(replies, "day", now), "day", now)
    ensures LiveScores(Refresh(map[], "day", replies, now), ReadKey, now) == map[]
  {
    DayCallReadsWeekRanking(map[], replies, now);
  }

  /** With distinct scores, the top-n list is unique: ties are the only
      freedom the read has. */
  lemma TopIsUnique(z: map<TopicId, int>, n: nat, a: seq<TopicId>, b: seq<TopicId>)
    requires forall s, t :: s in z && t in z && s != t ==> z[s] != z[t]
    requires IsTop(z, n, a) && IsTop(z, n, b)
    ensures a == b
  {
    if |a| <= |b| {
      TopPrefixUnique(z, n, a, b);
    } else {
      TopPrefixUnique(z, n, b, a);
    }
  }

  /** The shorter of two top-n lists is a prefix of the other, and it cannot
      be strictly shorter. */
  lemma TopPrefixUnique(z: map<TopicId, int>, n: nat, a: seq<TopicId>, b: seq<TopicId>)
    requires forall s, t :: s in z && t in z && s != t ==> z[s] != z[t]
    requires IsTop(z, n, a) && IsTop(z, n, b)
    requires |a| <= |b|
    ensures a == b
  {
    var k := 0;
    while k < |a|
      invariant k <= |a| && a[..k] == b[..k]
    {
      TopAgreesAt(z, n, a, b, k);
      assert a[..k + 1] == a[..k] + [a[k]] && b[..k + 1] == b[..k] + [b[k]];
      k := k + 1;
    }
    assert a == b[..|a|];
    if |a| < n && |b| > 0 {
      // a holds every key, so the last member of b sits at its own index in a
      var i := |b| - 1;
      assert b[i] in z;
      assert b[i] in a;
      var j :| 0 <= j < |a| && a[j] == b[i];
      assert b[j] == b[i];
      assert i == j;
    }
  }

  lemma TopAgreesAt(z: map<TopicId, int>, n: nat, a: seq<TopicId>, b: seq<TopicId>, k: nat)
    requires forall s, t :: s in z && t in z && s != t ==> z[s] != z[t]
    requires IsTop(z, n, a) && IsTop(z, n, b)
    requires k < |a| && k < |b| && a[..k] == b[..k]
    ensures a[k] == b[k]
  {
    TopScoreBound(z, n, a, b, k);
    TopScoreBound(z, n, b, a, k);
  }

  /** Two top-n lists that agree before position k: the one at k in the first
      scores at least as much as the one at k in the second, which either comes
      later in the first list or is not in it at all. */
  lemma TopScoreBound(z: map<TopicId, int>, n: nat, a: seq<TopicId>, b: seq<TopicId>, k: nat)
    requires IsTop(z, n, a) && IsTop(z, n, b)
    requires k < |a| && k < |b| && a[..k] == b[..k]
    ensures z[b[k]] <= z[a[k]]
  {
    var y := b[k];
    if y in a {
      var j :| 0 <= j < |a| && a[j] == y;
      assert forall i :: 0 <= i < k ==> a[i] == a[..k][i] == b[..k][i] == b[i];
      assert k <= j;
    }
  }

  /** A repeat call at `now2`, while both the period's key and the week key
      are live, leaves the store as it is and returns the same ids as the
      earlier read at `now`, when no two topics of the week ranking tie. */
  lemma RepeatCallSameIds(entries: map<string, Entry>, period: string, later: seq<Reply>,
                          now: int, now2: int, ids: seq<TopicId>, ids2: seq<TopicId>)
    requires period == "week" || period == "day"
    requires now <= now2
    requires Live(entries, CacheKey(period), now2) && Live(entries, ReadKey, now2)
    requires var z := entries[ReadKey].scores;
      forall s, t :: s in z && t in z && s != t ==> z[s] != z[t]
    requires IsTop(LiveScores(entries, ReadKey, now), TopCount, ids)
    requires IsTop(LiveScores(Refresh(entries, period, later, now2), ReadKey, now2), TopCount, ids2)
    ensures Refresh(entries, period, later, now2) == entries
    ensures ids == ids2
  {
    var z := entries[ReadKey].scores;
    assert LiveScores(entries, ReadKey, now) == z;
    assert LiveScores(entries, ReadKey, now2) == z;
    TopIsUnique(z, TopCount, ids, ids2);
  }
}
