/** The current asset resolver (`src/services/storyblok/utils/parse-asset.ts`):
    an asset field becomes an image `src` and an `alt`, or an error. */
module ParseAsset {
  import opened Wrappers
  import opened JsText
  import opened StoryblokTypes

  datatype ParsedAsset = ParsedAsset(src: string, alt: Option<string>)

  /** The optional `part` argument. */
  datatype AssetPart = SrcPart | AltPart

  datatype AssetValue = WholeAsset(asset: ParsedAsset) | SrcValue(src: string) | AltValue(alt: Option<string>)

  /** The two exceptions the resolver throws. */
  datatype AssetError = NullAsset | MissingSource

  /** The first argument that is neither `null` nor `undefined`, if any. */
  function Coalesce<T>(values: seq<Option<T>>): (r: Option<T>)
    ensures r.Some? <==> exists i :: 0 <= i < |values| && values[i].Some?
    ensures r.Some? ==> exists i :: 0 <= i < |values| && values[i] == r
                                    && forall j :: 0 <= j < i ==> values[j].None?
  {
    if values == [] then None
    else if values[0].Some? then values[0]
    else
      var r := Coalesce(values[1..]);
      assert forall i :: 1 <= i < |values| ==> values[i] == values[1..][i - 1];
      r
  }

  /** With two arguments: the first unless it is nullish. */
  lemma CoalesceTwo<T>(a: Option<T>, b: Option<T>)
    ensures Coalesce([a, b]) == if a.Some? then a else b
  {
    assert [a, b][1..] == [b];
    assert [b][1..] == [];
    assert Coalesce([b]) == b by {
      if b.None? {
        assert Coalesce([b]) == Coalesce([]);
      }
    }
  }

  function ParseAsset(asset: Option<AssetStoryblok>): (r: Result<ParsedAsset, AssetError>)
    ensures asset.None? ==> r == Failure(NullAsset)
    ensures asset.Some? ==> (r.Success? <==> if asset.value.filename.Some? then asset.value.filename.value != ""
                                             else Truthy(asset.value.src))
    ensures asset.Some? && r.Failure? ==> r.error == MissingSource
    ensures r.Success? ==> r.value.src != ""
                           && r.value.src == OrElse(asset.value.filename, OrElse(asset.value.src, ""))
                           && r.value.alt == asset.value.alt
  {
    match asset
    case None => Failure(NullAsset)
    case Some(a) =>
      var src := Coalesce([a.filename, a.src]);
      CoalesceTwo(a.filename, a.src);
      if !Truthy(src) then Failure(MissingSource)
      else Success(ParsedAsset(src.value, a.alt))
  }

  /** An empty `filename` is not nullish, so it hides `src` and the asset is rejected. */
  lemma EmptyFilenameIsRejected(filename: string, src: Option<string>, alt: Option<string>)
    requires filename == ""
    ensures ParseAsset(Some(AssetStoryblok(Some(filename), src, alt))) == Failure(MissingSource)
  {
    assert Coalesce([Some(filename), src]) == Some(filename);
  }

  /** `parseAsset(asset, part)`: the same checks and errors, then the requested field. */
  function ParseAssetPart(asset: Option<AssetStoryblok>, part: Option<AssetPart>): (r: Result<AssetValue, AssetError>)
    ensures r.Failure? <==> ParseAsset(asset).Failure?
    ensures r.Failure? ==> r.error == ParseAsset(asset).error
    ensures r.Success? && part.None? ==> r.value == WholeAsset(ParseAsset(asset).value)
    ensures r.Success? && part == Some(SrcPart) ==> r.value == SrcValue(ParseAsset(asset).value.src)
    ensures r.Success? && part == Some(AltPart) ==> r.value == AltValue(ParseAsset(asset).value.alt)
  {
    match ParseAsset(asset)
    case Failure(e) => Failure(e)
    case Success(p) =>
      match part
      case None => Success(WholeAsset(p))
      case Some(SrcPart) => Success(SrcValue(p.src))
      case Some(AltPart) => Success(AltValue(p.alt))
  }
}
