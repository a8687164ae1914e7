/**
 Image resolution for one variant: getImageUrlByImage picks a storage path
 of a parent image's media and turns it into an escaped public URL, and
 getVariantImages collects those URLs into a PHP array keyed by image
 position and returns its values.
 */
module ImageResolution {
  import opened Catalog
  import opened UrlEscape
  import opened PhpArray

  /** PHP truthiness of a string-or-null value: null, "" and "0" are falsy. */
  predicate Truthy(url: Option<string>) {
    url.Some? && url.value != "" && url.value != "0"
  }

  /** The paths of the image's media, or None when there is no media or reading its paths fails. */
  function ReadPaths(image: ParentImage): Option<MediaPaths> {
    match image.media
    case None => None
    case Some(media) => media.paths
  }

  /**
   getImageUrlByImage: null when the image has no media, when reading the
   media's paths fails, or when the media has no thumbnail paths; otherwise
   the media service's URL for the first thumbnail path (when a thumbnail
   is asked for) or for the default path (when not), with brackets escaped.
   */
  function ImageUrlByImage(services: Services, image: ParentImage, thumbnail: bool): (url: Option<string>)
    ensures url.Some? <==>
              image.media.Some? && image.media.value.paths.Some? &&
              |image.media.value.paths.value.thumbnailFilePaths| > 0
    ensures url.Some? ==> NoBrackets(url.value)
    ensures url.Some? && thumbnail ==>
              url.value == Escape(services.getUrl(image.media.value.paths.value.thumbnailFilePaths[0]))
    ensures url.Some? && !thumbnail ==>
              url.value == Escape(services.getUrl(image.media.value.paths.value.path))
  {
    match ReadPaths(image)
    case None => None
    case Some(paths) =>
      if |paths.thumbnailFilePaths| > 0 then
        var storagePath := if thumbnail then paths.thumbnailFilePaths[0] else paths.path;
        Some(Escape(services.getUrl(storagePath)))
      else None
  }

  /**
   What one variant image contributes to the collection: nothing when it has
   no parent, its parent has no media, or the resolved URL is falsy;
   otherwise the resolved URL.
   */
  function Contribution(services: Services, image: VariantImage, thumbnail: bool): (url: Option<string>)
    ensures url.Some? <==> image.parent.Some? && Truthy(ImageUrlByImage(services, image.parent.value, thumbnail))
    ensures url.Some? ==> Truthy(url) && NoBrackets(url.value)
    ensures url.Some? ==> url == ImageUrlByImage(services, image.parent.value, thumbnail)
  {
    if image.parent.None? || image.parent.value.media.None? then None
    else
      var url := ImageUrlByImage(services, image.parent.value, thumbnail);
      if Truthy(url) then url else None
  }

  /** The loop of getVariantImages: `$images[position] = url` for each contributing image, in order. */
  function CollectImages(services: Services, images: seq<VariantImage>, thumbnail: bool): (slots: seq<(int, string)>)
    ensures DistinctKeys(slots)
    ensures |slots| <= |images|
    ensures forall i :: 0 <= i < |slots| ==> Truthy(Some(slots[i].1)) && NoBrackets(slots[i].1)
  {
    if |images| == 0 then []
    else
      var previous := CollectImages(services, images[..|images| - 1], thumbnail);
      var image := images[|images| - 1];
      match Contribution(services, image, thumbnail)
      case None => previous
      case Some(url) => Assign(previous, image.position, url)
  }

  /** getVariantImages: the values of the position-keyed array, in the array's order. */
  function VariantImages(services: Services, variant: Variant, thumbnail: bool): (urls: seq<string>)
    ensures |urls| <= |variant.images|
    ensures forall i :: 0 <= i < |urls| ==> urls[i] != "" && urls[i] != "0" && NoBrackets(urls[i])
  {
    Values(CollectImages(services, variant.images, thumbnail))
  }

  /** The (position, URL) pairs of the contributing images, in the variant's image order. */
  function Contributions(services: Services, images: seq<VariantImage>, thumbnail: bool): (pairs: seq<(int, string)>)
    ensures |pairs| <= |images|
  {
    if |images| == 0 then []
    else
      var previous := Contributions(services, images[..|images| - 1], thumbnail);
      var image := images[|images| - 1];
      match Contribution(services, image, thumbnail)
      case None => previous
      case Some(url) => previous + [(image.position, url)]
  }

  /** The collection loop is the run of assignments of the contributing pairs. */
  lemma {:induction false} CollectImagesAssignsContributions(services: Services, images: seq<VariantImage>, thumbnail: bool)
    ensures CollectImages(services, images, thumbnail) == AssignAll(Contributions(services, images, thumbnail))
  {
    if |images| > 0 {
      var init := images[..|images| - 1];
      CollectImagesAssignsContributions(services, init, thumbnail);
      var c := Contributions(services, images, thumbnail);
      if c != Contributions(services, init, thumbnail) {
        assert c[..|c| - 1] == Contributions(services, init, thumbnail);
      }
    }
  }

  /**
   getVariantImages returns one URL per distinct position among the
   contributing images, positions in the order they were FIRST met, each
   with the URL of the LAST contributing image at that position. Positions
   are never sorted.
   */
  lemma VariantImagesByFirstPosition(services: Services, variant: Variant, thumbnail: bool)
    ensures VariantImages(services, variant, thumbnail) ==
              ValuesByFirstKey(Contributions(services, variant.images, thumbnail))
    ensures |VariantImages(services, variant, thumbnail)| ==
              |FirstOccurrences(KeysOf(Contributions(services, variant.images, thumbnail)))|
  {
    CollectImagesAssignsContributions(services, variant.images, thumbnail);
    AssignAllValuesByFirstKey(Contributions(services, variant.images, thumbnail));
  }

  lemma {:induction false} ContributionsAppend(services: Services, a: seq<VariantImage>, b: seq<VariantImage>, thumbnail: bool)
    ensures Contributions(services, a + b, thumbnail) ==
              Contributions(services, a, thumbnail) + Contributions(services, b, thumbnail)
    decreases |b|
  {
    if |b| == 0 {
      assert a + b == a;
    } else {
      var b' := b[..|b| - 1];
      assert (a + b)[..|a + b| - 1] == a + b';
      assert (a + b)[|a + b| - 1] == b[|b| - 1];
      ContributionsAppend(services, a, b', thumbnail);
    }
  }

  /** An image with no parent, no parent media, or a falsy URL changes nothing, wherever it stands. */
  lemma {:induction false} UnresolvableImageIsInert(services: Services, a: seq<VariantImage>, image: VariantImage, b: seq<VariantImage>, thumbnail: bool)
    requires Contribution(services, image, thumbnail).None?
    ensures CollectImages(services, a + [image] + b, thumbnail) == CollectImages(services, a + b, thumbnail)
  {
    ContributionsAppend(services, a, [image], thumbnail);
    ContributionsAppend(services, a + [image], b, thumbnail);
    ContributionsAppend(services, a, b, thumbnail);
    assert Contributions(services, [image], thumbnail) == [] by {
      assert [image][..0] == [];
    }
    CollectImagesAssignsContributions(services, a + [image] + b, thumbnail);
    CollectImagesAssignsContributions(services, a + b, thumbnail);
  }
}
