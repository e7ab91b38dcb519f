/**
 * ImageService.getPublicIdFromUrl of src/services/imageService.ts: the id
 * passed to the delete endpoint is the last path segment of the image URL
 * up to its first dot.
 */
module ImageService {
  import opened JsString

  /** The folder uploads are filed under. */
  const UploadFolder: string := "content-calendar"

  /** `parts[parts.length - 1]` of `url.split('/')`. */
  function LastSegment(url: string): (r: string)
    ensures '/' !in r
    ensures |r| <= |url| && url[|url| - |r|..] == r
  {
    var parts := Split(url, '/');
    SplitLastSuffix(url, '/');
    parts[|parts| - 1]
  }

  /**
   * getPublicIdFromUrl: the part of the last segment before its first dot;
   * it holds neither '/' nor '.', it ends where the segment has a dot or
   * ends, and it is the whole segment when the segment has no dot.
   */
  function GetPublicIdFromUrl(url: string): (r: string)
    ensures '/' !in r && '.' !in r
    ensures |r| <= |LastSegment(url)| && LastSegment(url)[..|r|] == r
    ensures |r| < |LastSegment(url)| ==> LastSegment(url)[|r|] == '.'
    ensures '.' !in LastSegment(url) ==> r == LastSegment(url)
  {
    var filename := LastSegment(url);
    SplitFirst(filename, '.');
    var id := Split(filename, '.')[0];
    assert forall i :: 0 <= i < |id| ==> id[i] == filename[i];
    id
  }

  /** The last segment is whatever follows the last '/'. */
  lemma LastSegmentOf(a: string, b: string)
    requires '/' !in b
    ensures LastSegment(a + "/" + b) == b
  {
    assert a + "/" + b == a + ['/'] + b;
    SplitLast(a, '/', b);
  }

  /** A URL ending in '/' has an empty public id. */
  lemma TrailingSlashEmptyId(base: string)
    ensures GetPublicIdFromUrl(base + "/") == ""
  {
    LastSegmentOf(base, "");
    assert base + "/" + "" == base + "/";
  }

  /**
   * For an image filed under the upload folder, the folder is not part of
   * the id: the id depends only on the file name after the folder.
   */
  lemma FolderNotInId(base: string, file: string)
    requires '/' !in file
    ensures GetPublicIdFromUrl(base + "/" + UploadFolder + "/" + file) == Split(file, '.')[0]
  {
    LastSegmentOf(base + "/" + UploadFolder, file);
  }
}
