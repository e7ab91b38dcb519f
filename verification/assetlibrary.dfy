/**
 * The asset library of src/components/AssetLibrary.tsx: with a non-empty
 * filter, only the assets carrying exactly that tag are listed.
 */
module AssetLibrary {
  import opened Lists

  datatype AssetKind = Image | Video | Pdf

  datatype Asset = Asset(id: string, url: string, kind: AssetKind, tags: seq<string>)

  /** The two assets the library starts with. */
  function InitialAssets(): seq<Asset>
  {
    [Asset("1", "/sample1.png", Image, ["meme"]), Asset("2", "/sample2.pdf", Pdf, ["report"])]
  }

  /**
   * filteredAssets: all assets for the empty filter; otherwise, in order,
   * exactly the assets one of whose tags equals the filter.
   */
  function FilteredAssets(assets: seq<Asset>, filter: string): (r: seq<Asset>)
    ensures filter == "" ==> r == assets
    ensures filter != "" ==> forall a :: a in r <==> a in assets && filter in a.tags
    ensures IsSubsequence(r, assets)
  {
    if filter == "" then
      assert IsSubsequence(assets, assets) by { SubsequenceReflexive(assets); }
      assets
    else
      FilterSubsequence(assets, (a: Asset) => filter in a.tags);
      Filter(assets, (a: Asset) => filter in a.tags)
  }

  /** The tag must match whole: a tag that merely contains the filter does not count. */
  lemma TagMatchedWhole(tag: string, filter: string)
    requires filter != "" && tag != filter
    ensures FilteredAssets([Asset("1", "/a.png", Image, [tag])], filter) == []
  {
    var a := Asset("1", "/a.png", Image, [tag]);
    assert filter !in a.tags;
  }
}
