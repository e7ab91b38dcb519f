/**
 * Counting posts by status and by platform, as CalendarStats and the
 * Dashboard do with `posts.filter(...).length`.
 */
module PostCounts {
  import opened PostTypes
  import opened Lists

  /** `posts.filter(post => post.status === status)`. */
  function WithStatus(posts: seq<Post>, status: PostStatus): (r: seq<Post>)
    ensures forall p :: p in r <==> p in posts && p.status == status
    ensures IsSubsequence(r, posts)
  {
    FilterSubsequence(posts, (p: Post) => p.status == status);
    Filter(posts, (p: Post) => p.status == status)
  }

  /** getStatusCount: the number of posts with the status, never more than there are posts. */
  function StatusCount(posts: seq<Post>, status: PostStatus): (n: nat)
    ensures n <= |posts|
    ensures n == 0 <==> forall p :: p in posts ==> p.status != status
  {
    var r := WithStatus(posts, status);
    assert r != [] ==> r[0] in r;
    |r|
  }

  /** `posts.filter(post => post.platform.includes(platform))`. */
  function WithPlatform(posts: seq<Post>, platform: Platform): (r: seq<Post>)
    ensures forall p :: p in r <==> p in posts && platform in p.platform
    ensures IsSubsequence(r, posts)
  {
    FilterSubsequence(posts, (p: Post) => platform in p.platform);
    Filter(posts, (p: Post) => platform in p.platform)
  }

  /** getPlatformCount: the number of posts whose platform list includes the platform. */
  function PlatformCount(posts: seq<Post>, platform: Platform): (n: nat)
    ensures n <= |posts|
    ensures n == 0 <==> forall p :: p in posts ==> platform !in p.platform
  {
    var r := WithPlatform(posts, platform);
    SubsequenceLength(r, posts);
    assert r != [] ==> r[0] in r;
    |r|
  }

  /** Every post has exactly one of the four statuses, so the four counts add up to the total. */
  lemma {:induction false} StatusCountsSum(posts: seq<Post>)
    ensures StatusCount(posts, Idea) + StatusCount(posts, Drafted) + StatusCount(posts, Scheduled) + StatusCount(posts, Posted) == |posts|
  {
    if posts != [] {
      StatusCountsSum(posts[1..]);
      StatusCountCons(posts, Idea);
      StatusCountCons(posts, Drafted);
      StatusCountCons(posts, Scheduled);
      StatusCountCons(posts, Posted);
    }
  }

  /** The first post counts for its own status only. */
  lemma StatusCountCons(posts: seq<Post>, st: PostStatus)
    requires posts != []
    ensures StatusCount(posts, st) == StatusCount(posts[1..], st) + (if posts[0].status == st then 1 else 0)
  {
    assert WithStatus(posts, st) == (if posts[0].status == st then [posts[0]] else []) + WithStatus(posts[1..], st);
  }

  /** The first post counts for a platform exactly when its list names the platform. */
  lemma PlatformCountCons(posts: seq<Post>, pl: Platform)
    requires posts != []
    ensures PlatformCount(posts, pl) == PlatformCount(posts[1..], pl) + (if pl in posts[0].platform then 1 else 0)
  {
    assert WithPlatform(posts, pl) == (if pl in posts[0].platform then [posts[0]] else []) + WithPlatform(posts[1..], pl);
  }
}
