/** The records the reply model works on: replies and the topics they belong to.
    Only the fields the reply logic reads are kept. */
module Entities {
  type UserId = int
  type TopicId = int
  type ReplyId = int

  /** A reply: its author, its topic, the users its body mentions (already
      notified by the mention path), its like count and its creation time in
      milliseconds since the epoch. */
  datatype Reply = Reply(
    id: ReplyId,
    topicId: TopicId,
    userId: UserId,
    mentionedUserIds: seq<UserId>,
    likesCount: int,
    createdAt: int)
  {
    /** `popular?`: a reply is popular from five likes on. */
    predicate Popular() {
      likesCount >= 5
    }
  }

  /** A topic: its owner and its followers in stored order. */
  datatype Topic = Topic(id: TopicId, userId: UserId, followerIds: seq<UserId>)

  /** Popularity is a like threshold at five: it only ever turns on as likes
      grow, five likes are enough and four are not. */
  lemma PopularIsThreshold(r: Reply, likes: int)
    ensures r.Popular() && r.likesCount <= likes ==> r.(likesCount := likes).Popular()
    ensures r.(likesCount := 5).Popular() && !r.(likesCount := 4).Popular()
    ensures r.Popular() <==> r.likesCount >= 5
  {
  }
}
