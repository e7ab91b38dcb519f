/**
 * The strings the post quick view of src/components/PostQuickView.tsx
 * builds: the status badge colour, the copyable hashtag line and the
 * download file name, and which sections are shown.
 */
module PostQuickView {
  import opened JsString
  import opened PostTypes
  import opened Optional

  /**
   * getStatusColor: Drafted is yellow, Scheduled blue, Posted green; Idea
   * and any other string gray.
   */
  function StatusColor(status: string): (r: string)
    ensures status == "Drafted" ==> r == "bg-yellow-500"
    ensures status == "Scheduled" ==> r == "bg-blue-500"
    ensures status == "Posted" ==> r == "bg-green-500"
    ensures r == "bg-gray-500" <==> status != "Drafted" && status != "Scheduled" && status != "Posted"
    ensures r == "bg-gray-500" || r == "bg-yellow-500" || r == "bg-blue-500" || r == "bg-green-500"
  {
    if status == "Idea" then "bg-gray-500"
    else if status == "Drafted" then "bg-yellow-500"
    else if status == "Scheduled" then "bg-blue-500"
    else if status == "Posted" then "bg-green-500"
    else "bg-gray-500"
  }

  /** The badge colour tells the statuses apart. */
  lemma StatusColorInjective(a: PostStatus, b: PostStatus)
    ensures StatusColor(StatusName(a)) == StatusColor(StatusName(b)) <==> a == b
  {
  }

  /** `#tag` for every tag. */
  function Prefixed(tags: seq<string>): (r: seq<string>)
    ensures |r| == |tags|
    ensures forall i :: 0 <= i < |r| ==> r[i] == "#" + tags[i]
  {
    seq(|tags|, i requires 0 <= i < |tags| => "#" + tags[i])
  }

  /** hashtagsText: each tag prefixed with '#', joined with single spaces. */
  function HashtagsText(tags: seq<string>): (r: string)
    ensures tags == [] ==> r == ""
  {
    Join(Prefixed(tags), " ")
  }

  /** Splitting the hashtag line at spaces gives back the prefixed tags, when no tag holds a space. */
  lemma HashtagsTextSplits(tags: seq<string>)
    requires |tags| >= 1 && forall i :: 0 <= i < |tags| ==> ' ' !in tags[i]
    ensures Split(HashtagsText(tags), ' ') == Prefixed(tags)
  {
    var p := Prefixed(tags);
    forall i | 0 <= i < |p|
      ensures ' ' !in p[i]
    {
      assert p[i] == "#" + tags[i];
    }
    SplitJoin(p, ' ');
  }

  /** The characters the pattern /[^a-zA-Z0-9]/ does not replace. */
  predicate IsAlphanumeric(c: char)
  {
    ('a' <= c <= 'z') || ('A' <= c <= 'Z') || ('0' <= c <= '9')
  }

  /** `title.replace(/[^a-zA-Z0-9]/g, '_')`. */
  function Sanitize(title: string): (r: string)
    ensures |r| == |title|
    ensures forall i :: 0 <= i < |r| ==> r[i] == (if IsAlphanumeric(title[i]) then title[i] else '_')
  {
    if title == [] then []
    else [if IsAlphanumeric(title[0]) then title[0] else '_'] + Sanitize(title[1..])
  }

  /**
   * The download file name: the sanitised title followed by "_asset"; it is
   * six characters longer than the title, keeps the title's letters and
   * digits in place, and holds only letters, digits and '_'.
   */
  function DownloadFilename(title: string): (r: string)
    ensures |r| == |title| + 6
    ensures forall i :: 0 <= i < |title| && IsAlphanumeric(title[i]) ==> r[i] == title[i]
    ensures forall i :: 0 <= i < |r| ==> IsAlphanumeric(r[i]) || r[i] == '_'
    ensures r[|title|..] == "_asset"
  {
    Sanitize(title) + "_asset"
  }

  /** The image section: the asset URL and the download file name. */
  datatype ImageSection = ImageSection(url: string, filename: string)

  /** What the quick view shows for a post. */
  datatype QuickView = QuickView(
    title: string,
    statusColor: string,
    platforms: seq<string>,
    caption: string,
    image: Option<ImageSection>,
    hashtags: Option<string>,
    scheduledAt: string)

  /**
   * The quick view: nothing without a post; the image section only for a
   * non-empty asset URL; the hashtag section only for a non-empty tag list.
   */
  function Render(post: Option<Post>): (r: Option<QuickView>)
    ensures r.None? <==> post.None?
    ensures r.Some? ==> (r.value.image.Some? <==> post.value.assetUrl.Some? && post.value.assetUrl.value != "")
    ensures r.Some? ==> (r.value.hashtags.Some? <==> post.value.hashtags != [])
  {
    match post
    case None => None
    case Some(p) =>
      var image := if p.assetUrl.Some? && p.assetUrl.value != "" then Some(ImageSection(p.assetUrl.value, DownloadFilename(p.title))) else None;
      var tags := if p.hashtags != [] then Some(HashtagsText(p.hashtags)) else None;
      Some(QuickView(p.title, StatusColor(StatusName(p.status)), seq(|p.platform|, i requires 0 <= i < |p.platform| => PlatformName(p.platform[i])),
                     p.caption, image, tags, p.scheduledAt))
  }
}
