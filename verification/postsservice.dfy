/**
 * The field mappings of src/services/postsService.ts between a `Post` and a
 * row of the `posts` table: the row sent on insert, the row sent on update,
 * and transformPost, which turns a stored row back into a `Post`. The
 * queries themselves are not part of this model.
 */
module PostsService {
  import opened Optional
  import opened PostTypes
  import opened IsoFormat

  /**
   * A stored row. `hashtags` and `asset_url` may be null; the id and the two
   * timestamps are filled in by the database.
   */
  datatype DatabasePost = DatabasePost(
    id: string,
    title: string,
    platform: seq<Platform>,
    caption: string,
    hashtags: Option<seq<string>>,
    asset_url: Option<string>,
    scheduled_at: string,
    postType: PostType,
    status: PostStatus,
    created_at: string,
    updated_at: string)

  /** The column values createPost and updatePost send; an absent asset URL is sent as no value. */
  datatype RowValues = RowValues(
    title: string,
    platform: seq<Platform>,
    caption: string,
    hashtags: seq<string>,
    asset_url: Option<string>,
    scheduled_at: string,
    postType: PostType,
    status: PostStatus)

  /** The update also sends the time of the update. */
  datatype UpdateRow = UpdateRow(values: RowValues, updated_at: string)

  /**
   * transformPost: the id, title, platform list, caption, scheduled time,
   * type and status are copied unchanged; a null tag list becomes the empty
   * list; a null or empty asset URL becomes undefined.
   */
  function TransformPost(data: DatabasePost): (p: Post)
    ensures p.id == data.id && p.title == data.title && p.platform == data.platform && p.caption == data.caption
    ensures p.scheduledAt == data.scheduled_at && p.postType == data.postType && p.status == data.status
    ensures data.hashtags.None? ==> p.hashtags == []
    ensures data.hashtags.Some? ==> p.hashtags == data.hashtags.value
    ensures p.assetUrl.None? <==> data.asset_url.None? || data.asset_url == Some("")
    ensures p.assetUrl.Some? ==> p.assetUrl == data.asset_url
  {
    Post(
      data.id,
      data.title,
      data.platform,
      data.caption,
      if data.hashtags.Some? then data.hashtags.value else [],
      if data.asset_url.Some? && data.asset_url.value != "" then data.asset_url else None,
      data.scheduled_at,
      data.postType,
      data.status)
  }

  /** The insert and update column values: assetUrl is sent as asset_url, scheduledAt as scheduled_at. */
  function RowValuesOf(data: PostData): (r: RowValues)
    ensures r.title == data.title && r.platform == data.platform && r.caption == data.caption
    ensures r.hashtags == data.hashtags && r.asset_url == data.assetUrl
    ensures r.scheduled_at == data.scheduledAt && r.postType == data.postType && r.status == data.status
  {
    RowValues(data.title, data.platform, data.caption, data.hashtags, data.assetUrl,
              data.scheduledAt, data.postType, data.status)
  }

  /** The update row: the same column values plus `updated_at = new Date().toISOString()`. */
  function UpdateRowOf(data: PostData, now: int): (r: UpdateRow)
    ensures r.values == RowValuesOf(data)
    ensures r.updated_at == ToIsoString(now)
  {
    UpdateRow(RowValuesOf(data), ToIsoString(now))
  }

  /** The row the database stores for an insert, with the id and creation time it assigns. */
  function Inserted(v: RowValues, id: string, createdAt: string): (row: DatabasePost)
    ensures row.id == id && row.created_at == createdAt && row.updated_at == createdAt
    ensures row.hashtags == Some(v.hashtags) && row.asset_url == v.asset_url
  {
    DatabasePost(id, v.title, v.platform, v.caption, Some(v.hashtags), v.asset_url,
                 v.scheduled_at, v.postType, v.status, createdAt, createdAt)
  }

  /** A row after the update: the new column values and update time, its id and creation time kept. */
  function Updated(row: DatabasePost, u: UpdateRow): (r: DatabasePost)
    ensures r.id == row.id && r.created_at == row.created_at && r.updated_at == u.updated_at
    ensures r.hashtags == Some(u.values.hashtags) && r.asset_url == u.values.asset_url
    ensures r.title == u.values.title && r.platform == u.values.platform && r.caption == u.values.caption
    ensures r.scheduled_at == u.values.scheduled_at && r.postType == u.values.postType && r.status == u.values.status
  {
    var v := u.values;
    DatabasePost(row.id, v.title, v.platform, v.caption, Some(v.hashtags), v.asset_url,
                 v.scheduled_at, v.postType, v.status, row.created_at, u.updated_at)
  }

  /**
   * `.update(...).eq('id', id)`: the rows with that id take the new column
   * values and update time; every other row is left as it was.
   */
  function ApplyUpdate(table: seq<DatabasePost>, id: string, u: UpdateRow): (r: seq<DatabasePost>)
    ensures |r| == |table|
    ensures forall i :: 0 <= i < |r| && table[i].id != id ==> r[i] == table[i]
    ensures forall i :: 0 <= i < |r| && table[i].id == id ==> r[i] == Updated(table[i], u)
  {
    if table == [] then []
    else
      var head := if table[0].id == id then Updated(table[0], u) else table[0];
      [head] + ApplyUpdate(table[1..], id, u)
  }

  /** The Post with the given id and the submitted field values. */
  function WithId(id: string, data: PostData): Post
  {
    Post(id, data.title, data.platform, data.caption, data.hashtags, data.assetUrl,
         data.scheduledAt, data.postType, data.status)
  }

  /**
   * What createPost returns is the submitted post under the id the database
   * assigned, provided the asset URL is not the empty string (which comes
   * back as undefined).
   */
  lemma InsertRoundTrip(data: PostData, id: string, createdAt: string)
    requires data.assetUrl != Some("")
    ensures TransformPost(Inserted(RowValuesOf(data), id, createdAt)) == WithId(id, data)
  {
  }

  /** An empty asset URL does not survive the round trip. */
  lemma InsertEmptyAssetUrl(data: PostData, id: string, createdAt: string)
    requires data.assetUrl == Some("")
    ensures TransformPost(Inserted(RowValuesOf(data), id, createdAt)).assetUrl == None
  {
  }

  /**
   * After an update, every row with the id reads back as the submitted post,
   * again unless the asset URL is the empty string.
   */
  lemma UpdateRoundTrip(table: seq<DatabasePost>, id: string, data: PostData, now: int, i: int)
    requires data.assetUrl != Some("")
    requires 0 <= i < |table| && table[i].id == id
    ensures TransformPost(ApplyUpdate(table, id, UpdateRowOf(data, now))[i]) == WithId(id, data)
  {
  }
}
