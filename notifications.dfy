/** Topic-reply notifications: the fanout run after a reply is created, and the
    cleanup run when a reply is destroyed. Both work on one notification table. */
module Notifications {
  import opened Entities

  /** The kind of a notification row; the fanout creates TopicReply rows.
      `notifications.delete_all` removes the rows whose reply id is the
      destroyed reply's. */
  datatype Kind = TopicReply

  datatype Notification = Notification(userId: UserId, replyId: ReplyId, kind: Kind)

  /** The notification collection, as an in-memory table of rows in insertion order. */
  class NotificationTable {
    var rows: seq<Notification>

    constructor ()
      ensures rows == []
    {
      rows := [];
    }

    /** `Notification::TopicReply.create`: one more row at the end. */
    method Create(n: Notification)
      modifies this
      ensures rows == old(rows) + [n]
    {
      rows := rows + [n];
    }

    /** `notifications.delete_all` on destroy: drop every row owned by the reply. */
    method DeleteForReply(replyId: ReplyId)
      modifies this
      ensures rows == WithoutReply(old(rows), replyId)
    {
      var kept := [];
      for i := 0 to |rows|
        invariant kept == WithoutReply(rows[..i], replyId)
      {
        assert rows[..i + 1][..i] == rows[..i];
        if rows[i].replyId != replyId {
          kept := kept + [rows[i]];
        }
      }
      assert rows[..|rows|] == rows;
      rows := kept;
    }
  }

  /** The rows that survive destroying reply `replyId`, in their original order. */
  function WithoutReply(rows: seq<Notification>, replyId: ReplyId): (kept: seq<Notification>)
    ensures |kept| <= |rows|
    ensures forall i :: 0 <= i < |kept| ==> kept[i].replyId != replyId && kept[i] in rows
  {
    if rows == [] then []
    else
      var rest := WithoutReply(rows[..|rows| - 1], replyId);
      var last := rows[|rows| - 1];
      if last.replyId == replyId then rest else rest + [last]
  }

  /** Destroying a reply removes exactly its notifications: none of them is left,
      and every other row keeps its number of copies. */
  lemma {:induction false} WithoutReplyRemovesExactly(rows: seq<Notification>, replyId: ReplyId, n: Notification)
    ensures multiset(WithoutReply(rows, replyId))[n] ==
            if n.replyId == replyId then 0 else multiset(rows)[n]
  {
    if rows != [] {
      var init := rows[..|rows| - 1];
      assert rows == init + [rows[|rows| - 1]];
      WithoutReplyRemovesExactly(init, replyId, n);
    }
  }

  /** Cleanup keeps the relative order of the surviving rows. */
  lemma {:induction false} WithoutReplyAppend(a: seq<Notification>, b: seq<Notification>, replyId: ReplyId)
    ensures WithoutReply(a + b, replyId) == WithoutReply(a, replyId) + WithoutReply(b, replyId)
  {
    if b == [] {
      assert a + b == a;
    } else {
      var init := b[..|b| - 1];
      assert (a + b)[..|a + b| - 1] == a + init;
      WithoutReplyAppend(a, init, replyId);
    }
  }

  /** A table with no row of the reply is left as it is. */
  lemma {:induction false} WithoutReplyIdentity(rows: seq<Notification>, replyId: ReplyId)
    requires forall i :: 0 <= i < |rows| ==> rows[i].replyId != replyId
    ensures WithoutReply(rows, replyId) == rows
  {
    if rows != [] {
      var init := rows[..|rows| - 1];
      WithoutReplyIdentity(init, replyId);
      assert init + [rows[|rows| - 1]] == rows;
    }
  }

  /** Destroying a reply with three notifications, among rows of other replies,
      removes those three and nothing else. */
  lemma DestroyThreeOfFive(a: Notification, b: Notification, c: Notification,
                           x: Notification, y: Notification)
    requires a.replyId == 7 && b.replyId == 7 && c.replyId == 7
    requires x.replyId == 8 && y.replyId == 9
    ensures WithoutReply([a, x, b, y, c], 7) == [x, y]
  {
    assert [a, x, b, y, c] == [a, x] + [b, y] + [c];
    WithoutReplyAppend([a, x] + [b, y], [c], 7);
    WithoutReplyAppend([a, x], [b, y], 7);
    assert WithoutReply([a, x], 7) == [x] by {
      assert [a, x][..1] == [a];
    }
    assert WithoutReply([b, y], 7) == [y] by {
      assert [b, y][..1] == [b];
    }
  }

  /** The owner gets a TopicReply notification when they did not write the reply
      and were not mentioned in it. */
  predicate OwnerNotified(reply: Reply, topic: Topic) {
    reply.userId != topic.userId && topic.userId !in reply.mentionedUserIds
  }

  /** `notified_user_ids` after the owner step: the mentioned users, plus the
      owner once they have been notified. */
  function NotifiedAfterOwner(reply: Reply, topic: Topic): seq<UserId> {
    if OwnerNotified(reply, topic) then reply.mentionedUserIds + [topic.userId]
    else reply.mentionedUserIds
  }

  /** The followers notified, in follower order: every occurrence of a follower
      that is neither in `notified` nor the author. The list `notified` is not
      extended by this step, so a repeated follower is notified once per occurrence. */
  function FollowerRecipients(followers: seq<UserId>, notified: seq<UserId>, author: UserId): (uids: seq<UserId>)
    ensures |uids| <= |followers|
    ensures author !in uids
  {
    if followers == [] then []
    else
      var rest := FollowerRecipients(followers[..|followers| - 1], notified, author);
      var uid := followers[|followers| - 1];
      if uid in notified || uid == author then rest else rest + [uid]
  }

  /** Everyone a fanout notifies, in the order the notifications are created. */
  function Recipients(reply: Reply, topic: Topic): (uids: seq<UserId>)
    ensures |uids| <= |topic.followerIds| + 1
    ensures reply.userId !in uids
  {
    (if OwnerNotified(reply, topic) then [topic.userId] else [])
      + FollowerRecipients(topic.followerIds, NotifiedAfterOwner(reply, topic), reply.userId)
  }

  /** The TopicReply rows created for the given users, one each, in that order. */
  function TopicReplyRecords(uids: seq<UserId>, replyId: ReplyId): seq<Notification> {
    seq(|uids|, i requires 0 <= i < |uids| => Notification(uids[i], replyId, TopicReply))
  }

  lemma TopicReplyRecordsSnoc(uids: seq<UserId>, uid: UserId, replyId: ReplyId)
    ensures TopicReplyRecords(uids + [uid], replyId)
         == TopicReplyRecords(uids, replyId) + [Notification(uid, replyId, TopicReply)]
  {
  }

  lemma TopicReplyRecordsAppend(a: seq<UserId>, b: seq<UserId>, replyId: ReplyId)
    ensures TopicReplyRecords(a + b, replyId) == TopicReplyRecords(a, replyId) + TopicReplyRecords(b, replyId)
  {
  }

  /** `Reply.send_topic_reply_notification`: looks up the reply and its topic,
      silently does nothing when either is missing, and otherwise appends one
      TopicReply row per recipient, owner first and then followers in order. */
  method SendTopicReplyNotification(replies: map<ReplyId, Reply>, topics: map<TopicId, Topic>,
                                    replyId: ReplyId, table: NotificationTable)
    returns (done: bool)
    modifies table
    ensures done <==> replyId in replies && replies[replyId].topicId in topics
    ensures !done ==> table.rows == old(table.rows)
    ensures done ==>
      var reply := replies[replyId];
      table.rows == old(table.rows) + TopicReplyRecords(Recipients(reply, topics[reply.topicId]), reply.id)
  {
    if replyId !in replies {
      return false;
    }
    var reply := replies[replyId];
    if reply.topicId !in topics {
      return false;
    }
    var topic := topics[reply.topicId];

    var notified := reply.mentionedUserIds;
    ghost var sent: seq<UserId> := [];
    if reply.userId != topic.userId && topic.userId !in notified {
      table.Create(Notification(topic.userId, reply.id, TopicReply));
      notified := notified + [topic.userId];
      sent := [topic.userId];
    }
    assert table.rows == old(table.rows) + TopicReplyRecords(sent, reply.id);
    ghost var followersSent := FollowerRecipients(topic.followerIds, notified, reply.userId);
    assert Recipients(reply, topic) == sent + followersSent;
    TopicReplyRecordsAppend(sent, followersSent, reply.id);
    NotifyFollowers(topic.followerIds, notified, reply.userId, reply.id, table);
    assert table.rows == old(table.rows) + (TopicReplyRecords(sent, reply.id) + TopicReplyRecords(followersSent, reply.id));
    done := true;
  }

  /** The follower loop of the fanout: one TopicReply row for each entry of
      `followers` that is neither in `notified` nor the author, in list order. */
  method NotifyFollowers(followers: seq<UserId>, notified: seq<UserId>, author: UserId,
                         replyId: ReplyId, table: NotificationTable)
    modifies table
    ensures table.rows == old(table.rows) + TopicReplyRecords(FollowerRecipients(followers, notified, author), replyId)
  {
    assert followers[..0] == [];
    for i := 0 to |followers|
      invariant table.rows == old(table.rows) + TopicReplyRecords(FollowerRecipients(followers[..i], notified, author), replyId)
    {
      var uid := followers[i];
      assert followers[..i + 1][..i] == followers[..i];
      if uid !in notified && uid != author {
        TopicReplyRecordsSnoc(FollowerRecipients(followers[..i], notified, author), uid, replyId);
        table.Create(Notification(uid, replyId, TopicReply));
      }
    }
    assert followers[..|followers|] == followers;
  }

  /** Followers in separate runs of the list are notified in the same order:
      the notifications for an earlier part of `follower_ids` precede those for a later part. */
  lemma {:induction false} FollowerRecipientsAppend(a: seq<UserId>, b: seq<UserId>, notified: seq<UserId>, author: UserId)
    ensures FollowerRecipients(a + b, notified, author)
         == FollowerRecipients(a, notified, author) + FollowerRecipients(b, notified, author)
  {
    if b == [] {
      assert a + b == a;
    } else {
      var init := b[..|b| - 1];
      assert (a + b)[..|a + b| - 1] == a + init;
      FollowerRecipientsAppend(a, init, notified, author);
    }
  }

  /** Each follower occurrence that is neither already notified nor the author
      yields one notification; excluded users yield none. */
  lemma {:induction false} FollowerRecipientsCount(followers: seq<UserId>, notified: seq<UserId>, author: UserId, u: UserId)
    ensures multiset(FollowerRecipients(followers, notified, author))[u] ==
            if u in notified || u == author then 0 else multiset(followers)[u]
  {
    if followers != [] {
      var init := followers[..|followers| - 1];
      assert followers == init + [followers[|followers| - 1]];
      FollowerRecipientsCount(init, notified, author, u);
    }
  }

  /** How many TopicReply notifications a user receives from one fanout:
      none for the author or a mentioned user, exactly one for the owner
      (even when the owner also follows the topic), and otherwise one per
      occurrence in `follower_ids`. */
  lemma RecipientsCount(reply: Reply, topic: Topic, u: UserId)
    ensures multiset(Recipients(reply, topic))[u] ==
      if u == reply.userId || u in reply.mentionedUserIds then 0
      else if u == topic.userId then 1
      else multiset(topic.followerIds)[u]
  {
    FollowerRecipientsCount(topic.followerIds, NotifiedAfterOwner(reply, topic), reply.userId, u);
  }

  /** No fanout notifies the reply's author or a user already mentioned in it. */
  lemma RecipientsExcludeAuthorAndMentioned(reply: Reply, topic: Topic)
    ensures reply.userId !in Recipients(reply, topic)
    ensures forall u :: u in reply.mentionedUserIds ==> u !in Recipients(reply, topic)
  {
    RecipientsCount(reply, topic, reply.userId);
    forall u | u in reply.mentionedUserIds
      ensures u !in Recipients(reply, topic)
    {
      RecipientsCount(reply, topic, u);
    }
  }

  /** The owner is notified exactly when they are neither the author nor
      mentioned; then their notification comes first and is their only one. */
  lemma OwnerFirstAndOnce(reply: Reply, topic: Topic)
    ensures topic.userId in Recipients(reply, topic) <==> OwnerNotified(reply, topic)
    ensures OwnerNotified(reply, topic) ==>
      Recipients(reply, topic)[0] == topic.userId &&
      topic.userId !in Recipients(reply, topic)[1..]
  {
    var rs := Recipients(reply, topic);
    RecipientsCount(reply, topic, topic.userId);
    if OwnerNotified(reply, topic) {
      assert rs == [rs[0]] + rs[1..];
      assert multiset(rs)[topic.userId] == 1 + multiset(rs[1..])[topic.userId];
    }
  }

  /** Only the owner and the followers are ever notified. */
  lemma RecipientsFromTopic(reply: Reply, topic: Topic)
    ensures forall u :: u in Recipients(reply, topic) ==> u == topic.userId || u in topic.followerIds
  {
    forall u | u in Recipients(reply, topic)
      ensures u == topic.userId || u in topic.followerIds
    {
      RecipientsCount(reply, topic, u);
    }
  }

  /** When the stored followers hold no duplicates, nobody is notified twice. */
  lemma RecipientsDistinct(reply: Reply, topic: Topic)
    requires forall u :: multiset(topic.followerIds)[u] <= 1
    ensures forall u :: multiset(Recipients(reply, topic))[u] <= 1
  {
    forall u
      ensures multiset(Recipients(reply, topic))[u] <= 1
    {
      RecipientsCount(reply, topic, u);
    }
  }

  /** A follower listed twice (and not otherwise excluded) is notified twice:
      owner 1, followers [2, 2], author 3. */
  lemma DuplicateFollowerNotifiedTwice()
    ensures Recipients(Reply(10, 5, 3, [], 0, 0), Topic(5, 1, [2, 2])) == [1, 2, 2]
  {
    assert [2, 2][..1] == [2];
    assert FollowerRecipients([2], [1], 3) == [2];
  }

  /** Owner U1, followers [U2, U3, U2], author U2, U3 mentioned: only the owner is notified. */
  lemma OnlyOwnerNotified()
    ensures Recipients(Reply(10, 5, 2, [3], 0, 0), Topic(5, 1, [2, 3, 2])) == [1]
  {
    assert [2, 3, 2][..2] == [2, 3];
    assert [2, 3][..1] == [2];
    assert FollowerRecipients([2], [3, 1], 2) == [];
    assert FollowerRecipients([2, 3], [3, 1], 2) == [];
  }
}
