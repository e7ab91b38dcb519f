/**
 * The idea backlog of src/components/IdeaBacklog.tsx: `sortedIdeas` sorts
 * a copy of the ideas by impact (highest first), by post type name, or by
 * the comma-joined platform list, with Array.prototype.sort.
 */
module IdeaBacklog {
  import opened JsString
  import opened PostTypes
  import opened Sorting

  datatype Idea = Idea(id: string, title: string, postType: PostType, platform: seq<Platform>, impact: int)

  /** The three sort choices. */
  datatype SortKey = ByImpact | ByType | ByPlatform

  /** The two ideas the backlog starts with. */
  function InitialIdeas(): seq<Idea>
  {
    [Idea.Idea("1", "Share a dev meme", GeneralThought, [Twitter], 7),
     Idea.Idea("2", "Critique new LinkedIn UI", AppCritique, [LinkedIn], 8)]
  }

  /**
   * String.prototype.localeCompare, as character-by-character comparison
   * where a proper prefix comes first: -1, 0 or 1.
   */
  function LocaleCompare(a: string, b: string): (r: int)
    ensures -1 <= r <= 1
    ensures r == 0 <==> a == b
  {
    if a == [] then (if b == [] then 0 else -1)
    else if b == [] then 1
    else if a[0] < b[0] then -1
    else if a[0] > b[0] then 1
    else
      assert a == [a[0]] + a[1..] && b == [b[0]] + b[1..];
      LocaleCompare(a[1..], b[1..])
  }

  lemma {:induction false} LocaleCompareAntisymmetric(a: string, b: string)
    ensures LocaleCompare(a, b) == -LocaleCompare(b, a)
  {
    if a != [] && b != [] && a[0] == b[0] {
      LocaleCompareAntisymmetric(a[1..], b[1..]);
    }
  }

  lemma {:induction false} LocaleCompareTransitive(a: string, b: string, c: string)
    requires LocaleCompare(a, b) <= 0 && LocaleCompare(b, c) <= 0
    ensures LocaleCompare(a, c) <= 0
  {
    if a != [] && b != [] && c != [] && a[0] == b[0] && b[0] == c[0] {
      LocaleCompareTransitive(a[1..], b[1..], c[1..]);
    }
  }

  /** The platform names, in order. */
  function PlatformNames(ps: seq<Platform>): (r: seq<string>)
    ensures |r| == |ps| && forall i :: 0 <= i < |r| ==> r[i] == PlatformName(ps[i])
  {
    seq(|ps|, i requires 0 <= i < |ps| => PlatformName(ps[i]))
  }

  /**
   * `platform.join()`: the platform names joined with commas; splitting
   * the text at commas gives the names back.
   */
  function PlatformList(ps: seq<Platform>): (r: string)
    ensures ps == [] ==> r == ""
    ensures ps != [] ==> Split(r, ',') == PlatformNames(ps)
  {
    var names := PlatformNames(ps);
    if ps == [] then "" else
      assert forall i :: 0 <= i < |names| ==> ',' !in names[i];
      SplitJoin(names, ',');
      Join(names, ",")
  }

  /** Two platform lists join to the same text only when they are the same list. */
  lemma PlatformListInjective(p: seq<Platform>, q: seq<Platform>)
    ensures PlatformList(p) == PlatformList(q) <==> p == q
  {
    if PlatformList(p) == PlatformList(q) && p != [] && q != [] {
      var np, nq := PlatformNames(p), PlatformNames(q);
      assert np == nq;
      forall i | 0 <= i < |p|
        ensures p[i] == q[i]
      {
        assert PlatformName(p[i]) == np[i] == nq[i] == PlatformName(q[i]);
      }
    }
  }

  /**
   * The comparator passed to sort for each choice: by impact the higher
   * impact comes first; by type or platform list two ideas tie exactly when
   * their types or their platform lists are the same.
   */
  function CompareIdeas(key: SortKey, a: Idea, b: Idea): (r: int)
    ensures key == ByImpact ==> (r < 0 <==> a.impact > b.impact) && (r == 0 <==> a.impact == b.impact)
    ensures key == ByType ==> (r == 0 <==> a.postType == b.postType)
    ensures key == ByPlatform ==> (r == 0 <==> a.platform == b.platform)
  {
    PlatformListInjective(a.platform, b.platform);
    match key
    case ByImpact => b.impact - a.impact
    case ByType => LocaleCompare(PostTypeName(a.postType), PostTypeName(b.postType))
    case ByPlatform => LocaleCompare(PlatformList(a.platform), PlatformList(b.platform))
  }

  function Comparator(key: SortKey): (Idea, Idea) -> int
  {
    (a, b) => CompareIdeas(key, a, b)
  }

  /** Each of the three comparators is consistent, so the sort order is fully prescribed. */
  lemma ComparatorConsistent(key: SortKey, ideas: seq<Idea>)
    ensures Consistent(Comparator(key), ideas)
  {
    var cmp := Comparator(key);
    forall a, b | a in ideas && b in ideas
      ensures cmp(a, b) < 0 <==> cmp(b, a) > 0
    {
      match key
      case ByImpact =>
      case ByType => LocaleCompareAntisymmetric(PostTypeName(a.postType), PostTypeName(b.postType));
      case ByPlatform => LocaleCompareAntisymmetric(PlatformList(a.platform), PlatformList(b.platform));
    }
    forall a, b, c | a in ideas && b in ideas && c in ideas && cmp(a, b) <= 0 && cmp(b, c) <= 0
      ensures cmp(a, c) <= 0
    {
      match key
      case ByImpact =>
      case ByType => LocaleCompareTransitive(PostTypeName(a.postType), PostTypeName(b.postType), PostTypeName(c.postType));
      case ByPlatform => LocaleCompareTransitive(PlatformList(a.platform), PlatformList(b.platform), PlatformList(c.platform));
    }
  }

  /**
   * sortedIdeas: a reordering of the ideas in which impacts never increase,
   * type names never decrease, or joined platform lists never decrease,
   * according to the sort choice.
   */
  function SortedIdeas(ideas: seq<Idea>, key: SortKey): (r: seq<Idea>)
    ensures multiset(r) == multiset(ideas)
    ensures key == ByImpact ==> forall i, j :: 0 <= i < j < |r| ==> r[i].impact >= r[j].impact
    ensures key == ByType ==> forall i, j :: 0 <= i < j < |r| ==>
      LocaleCompare(PostTypeName(r[i].postType), PostTypeName(r[j].postType)) <= 0
    ensures key == ByPlatform ==> forall i, j :: 0 <= i < j < |r| ==>
      LocaleCompare(PlatformList(r[i].platform), PlatformList(r[j].platform)) <= 0
  {
    ComparatorConsistent(key, ideas);
    SortSorted(ideas, Comparator(key), ideas);
    SortedByKey(SortBy(ideas, Comparator(key)), key);
    SortBy(ideas, Comparator(key))
  }

  /** Sorted by a choice's comparator means that choice's field never goes the wrong way. */
  lemma SortedByKey(r: seq<Idea>, key: SortKey)
    requires Sorted(Comparator(key), r)
    ensures key == ByImpact ==> forall i, j :: 0 <= i < j < |r| ==> r[i].impact >= r[j].impact
    ensures key == ByType ==> forall i, j :: 0 <= i < j < |r| ==>
      LocaleCompare(PostTypeName(r[i].postType), PostTypeName(r[j].postType)) <= 0
    ensures key == ByPlatform ==> forall i, j :: 0 <= i < j < |r| ==>
      LocaleCompare(PlatformList(r[i].platform), PlatformList(r[j].platform)) <= 0
  {
    forall i, j | 0 <= i < j < |r|
      ensures CompareIdeas(key, r[i], r[j]) <= 0
    {
      assert Comparator(key)(r[i], r[j]) <= 0;
    }
  }

  /**
   * Ideas the comparator calls equal to a given idea (same impact, same
   * type, or same platform list) keep their original relative order.
   */
  lemma SortedIdeasStable(ideas: seq<Idea>, key: SortKey, e: Idea)
    requires e in ideas
    ensures Equivalents(SortedIdeas(ideas, key), e, Comparator(key)) == Equivalents(ideas, e, Comparator(key))
  {
    ComparatorConsistent(key, ideas);
    SortStable(ideas, e, Comparator(key), ideas);
  }
}
