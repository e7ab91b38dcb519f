/**
 * The three statistics cards of src/components/CalendarStats.tsx: the posts
 * of this IST month, this IST week and today, each counted by status and by
 * platform. The current time is the parameter `now`, the host offset `H`.
 */
module CalendarStats {
  import opened TimeMath
  import opened JsDate
  import opened DateUtils
  import opened PostTypes
  import opened Lists
  import opened PostCounts

  /** dayPosts: isSameDayIST(post.scheduledAt, getCurrentISTTime()) — the isToday test. */
  function DayPosts(posts: seq<Post>, now: int, H: int): (r: seq<Post>)
    ensures forall p :: p in r <==> p in posts && IsToday(Str(p.scheduledAt), now, H)
    ensures IsSubsequence(r, posts)
  {
    var today := GetCurrentISTTime(now, H);
    FilterSubsequence(posts, (p: Post) => IsSameDayIST(Str(p.scheduledAt), Obj(Time(today)), now, H));
    Filter(posts, (p: Post) => IsSameDayIST(Str(p.scheduledAt), Obj(Time(today)), now, H))
  }

  /** weekPosts: the posts isThisWeekIST accepts. */
  function WeekPosts(posts: seq<Post>, now: int, H: int): (r: seq<Post>)
    ensures forall p :: p in r <==> p in posts && InThisWeek(Str(p.scheduledAt), now, H)
    ensures IsSubsequence(r, posts)
  {
    FilterSubsequence(posts, (p: Post) => InThisWeek(Str(p.scheduledAt), now, H));
    Filter(posts, (p: Post) => InThisWeek(Str(p.scheduledAt), now, H))
  }

  /** monthPosts: the posts isThisMonthIST accepts. */
  function MonthPosts(posts: seq<Post>, now: int, H: int): (r: seq<Post>)
    ensures forall p :: p in r <==> p in posts && IsThisMonthIST(Str(p.scheduledAt), now, H)
    ensures IsSubsequence(r, posts)
  {
    FilterSubsequence(posts, (p: Post) => IsThisMonthIST(Str(p.scheduledAt), now, H));
    Filter(posts, (p: Post) => IsThisMonthIST(Str(p.scheduledAt), now, H))
  }

  /** One statistics card. */
  datatype StatsRow = StatsRow(
    title: string, total: nat,
    posted: nat, scheduled: nat, drafted: nat, ideas: nat,
    linkedin: nat, twitter: nat)

  /**
   * A card for a list of posts: each field is its status or platform count
   * of the list, the four status counts add up to the total, and each
   * platform count is at most the total.
   */
  function Row(title: string, ps: seq<Post>): (r: StatsRow)
    ensures r.title == title && r.total == |ps|
    ensures r.posted == StatusCount(ps, Posted) && r.scheduled == StatusCount(ps, Scheduled)
    ensures r.drafted == StatusCount(ps, Drafted) && r.ideas == StatusCount(ps, Idea)
    ensures r.linkedin == PlatformCount(ps, LinkedIn) && r.twitter == PlatformCount(ps, Twitter)
    ensures r.posted + r.scheduled + r.drafted + r.ideas == r.total
    ensures r.linkedin <= r.total && r.twitter <= r.total
    ensures r.linkedin == 0 <==> forall p :: p in ps ==> LinkedIn !in p.platform
    ensures r.twitter == 0 <==> forall p :: p in ps ==> Twitter !in p.platform
  {
    StatusCountsSum(ps);
    StatsRow(title, |ps|,
      StatusCount(ps, Posted), StatusCount(ps, Scheduled), StatusCount(ps, Drafted), StatusCount(ps, Idea),
      PlatformCount(ps, LinkedIn), PlatformCount(ps, Twitter))
  }

  /** stats: the month, week and day cards, in that order, each the card of its list. */
  function Stats(posts: seq<Post>, now: int, H: int): (r: seq<StatsRow>)
    ensures |r| == 3
    ensures r[0] == Row("This Month", MonthPosts(posts, now, H))
    ensures r[1] == Row("This Week", WeekPosts(posts, now, H))
    ensures r[2] == Row("Today", DayPosts(posts, now, H))
    ensures r[0].title == "This Month" && r[0].total == |MonthPosts(posts, now, H)|
    ensures r[1].title == "This Week" && r[1].total == |WeekPosts(posts, now, H)|
    ensures r[2].title == "Today" && r[2].total == |DayPosts(posts, now, H)|
    ensures r[0].total <= |posts| && r[1].total <= |posts| && r[2].total <= |posts|
    ensures r[0].posted + r[0].scheduled + r[0].drafted + r[0].ideas == r[0].total
    ensures r[1].posted + r[1].scheduled + r[1].drafted + r[1].ideas == r[1].total
    ensures r[2].posted + r[2].scheduled + r[2].drafted + r[2].ideas == r[2].total
  {
    SubsequenceLength(MonthPosts(posts, now, H), posts);
    SubsequenceLength(WeekPosts(posts, now, H), posts);
    SubsequenceLength(DayPosts(posts, now, H), posts);
    var month := Row("This Month", MonthPosts(posts, now, H));
    var week := Row("This Week", WeekPosts(posts, now, H));
    var day := Row("Today", DayPosts(posts, now, H));
    [month, week, day]
  }

  /**
   * A post with a readable date is counted for the month exactly when its
   * IST year and month are those of now, whatever the host offset.
   */
  lemma MonthPostsIff(posts: seq<Post>, p: Post, now: int, H: int)
    requires p in posts && InputTime(Str(p.scheduledAt), H).Time?
    ensures var t := InputTime(Str(p.scheduledAt), H).ms;
      p in MonthPosts(posts, now, H) <==>
        YearFromDay(Day(t + IST_OFFSET)) == YearFromDay(Day(now + IST_OFFSET))
        && MonthFromDay(Day(t + IST_OFFSET)) == MonthFromDay(Day(now + IST_OFFSET))
  {
    IsThisMonthISTIff(Str(p.scheduledAt), now, H);
  }

  /**
   * A post with a readable date is counted for today exactly when its IST
   * day is the IST day of now + 5.5 h + H minutes: the current IST time is
   * converted twice.
   */
  lemma DayPostsIff(posts: seq<Post>, p: Post, now: int, H: int)
    requires p in posts && InputTime(Str(p.scheduledAt), H).Time?
    ensures var t := InputTime(Str(p.scheduledAt), H).ms;
      p in DayPosts(posts, now, H) <==> Day(t + IST_OFFSET) == Day(now + H * MsPerMinute + 2 * IST_OFFSET)
  {
    IsTodayDoubleShift(Str(p.scheduledAt), now, H);
  }

  /**
   * On a UTC host an instant of today (as isToday decides it) is also in
   * this week, except late on a Saturday: when the (twice shifted) current
   * day is a Saturday, the week window ends at 05:29:59.999 IST of that day.
   */
  lemma TodayInWeekUtcHost(t: int, now: int)
    requires IsToday(Obj(Time(t)), now, 0)
    ensures InThisWeek(Obj(Time(t)), now, 0) <==>
      WeekDayOfDay(Day(now + 2 * IST_OFFSET)) != 6 || TimeWithinDay(t + IST_OFFSET) < IST_OFFSET
  {
    IsTodayDoubleShift(Obj(Time(t)), now, 0);
    var z := Day(now + 2 * IST_OFFSET);
    assert Day(t + IST_OFFSET) == z;
    ThisWeekUtcHost(t, now);
    assert WeekSunday(z) == z - WeekDayOfDay(z);
  }
}
