/**
 * The post vocabulary of src/components/types.ts: the four statuses, the
 * three platform choices, the four post types, and the Post record itself.
 */
module PostTypes {
  import opened Optional

  datatype PostStatus = Idea | Drafted | Scheduled | Posted

  datatype Platform = LinkedIn | Twitter | Both

  datatype PostType = GeneralThought | AppCritique | PersonalInsight | TrendResponse

  /**
   * A post. `assetUrl` is optional (None is `undefined`); `scheduledAt` is
   * the stored date-time string, read with `new Date(string)` when needed.
   * The source's field `type` is called `postType` here.
   */
  datatype Post = Post(
    id: string,
    title: string,
    platform: seq<Platform>,
    caption: string,
    hashtags: seq<string>,
    assetUrl: Option<string>,
    scheduledAt: string,
    postType: PostType,
    status: PostStatus)

  /** `Omit<Post, 'id'>`: what a form submits and the service stores. */
  datatype PostData = PostData(
    title: string,
    platform: seq<Platform>,
    caption: string,
    hashtags: seq<string>,
    assetUrl: Option<string>,
    scheduledAt: string,
    postType: PostType,
    status: PostStatus)

  /** The string literals of the three union types. */
  function StatusName(s: PostStatus): string
  {
    match s
    case Idea => "Idea"
    case Drafted => "Drafted"
    case Scheduled => "Scheduled"
    case Posted => "Posted"
  }

  function PlatformName(p: Platform): string
  {
    match p
    case LinkedIn => "LinkedIn"
    case Twitter => "Twitter"
    case Both => "Both"
  }

  function PostTypeName(t: PostType): string
  {
    match t
    case GeneralThought => "General Thought"
    case AppCritique => "App Critique"
    case PersonalInsight => "Personal Insight"
    case TrendResponse => "Trend Response"
  }
}
