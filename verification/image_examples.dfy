/**
 A worked example of getVariantImages: images at positions 2, 0 and 1, the
 last one without parent media, come out in the order their positions were
 first met.
 */
module ImageExamples {
  import opened Catalog
  import opened UrlEscape
  import opened PhpArray
  import opened ImageResolution

  /** Collaborators for the worked example below: the media service returns the path unchanged. */
  function ExampleServices(): Services {
    Services(s => s == "", s => s, p => p, (link, title) => link)
  }

  /** A variant image whose media has one thumbnail and the given default path. */
  function ExampleImage(position: int, file: string): VariantImage {
    VariantImage(position, Some(ParentImage(Some(Media(Some(MediaPaths(["thumbnail"], file)))))))
  }

  /** Images at positions 2, 0 and 1; the one at position 1 has no parent media. */
  function ExampleVariant(): Variant {
    Variant(true, 1, [], [ExampleImage(2, "c.jpg"), ExampleImage(0, "a.jpg"), VariantImage(1, Some(ParentImage(None)))],
            Article(42, "Jacke"), "SW10000-02")
  }

  /** The image at position 2 contributes its default path. */
  lemma ExampleContributionFirst()
    ensures Contribution(ExampleServices(), ExampleVariant().images[0], false) == Some("c.jpg")
  {
    var image := ExampleVariant().images[0];
    assert image == ExampleImage(2, "c.jpg");
    assert ReadPaths(image.parent.value) == Some(MediaPaths(["thumbnail"], "c.jpg"));
    assert NoBrackets("c.jpg");
    assert ImageUrlByImage(ExampleServices(), image.parent.value, false) == Some("c.jpg");
  }

  /** The image at position 0 contributes its default path. */
  lemma ExampleContributionSecond()
    ensures Contribution(ExampleServices(), ExampleVariant().images[1], false) == Some("a.jpg")
  {
    var image := ExampleVariant().images[1];
    assert image == ExampleImage(0, "a.jpg");
    assert ReadPaths(image.parent.value) == Some(MediaPaths(["thumbnail"], "a.jpg"));
    assert NoBrackets("a.jpg");
    assert ImageUrlByImage(ExampleServices(), image.parent.value, false) == Some("a.jpg");
  }

  /** What each image of the example variant contributes; the one at position 1 has no media. */
  lemma ExampleContributions()
    ensures Contribution(ExampleServices(), ExampleVariant().images[0], false) == Some("c.jpg")
    ensures Contribution(ExampleServices(), ExampleVariant().images[1], false) == Some("a.jpg")
    ensures Contribution(ExampleServices(), ExampleVariant().images[2], false) == None
  {
    ExampleContributionFirst();
    ExampleContributionSecond();
  }

  /** The first two images of the example fill two slots, position 2 first. */
  lemma ExampleFirstTwo()
    ensures CollectImages(ExampleServices(), ExampleVariant().images[..2], false) == [(2, "c.jpg"), (0, "a.jpg")]
  {
    var services := ExampleServices();
    var images := ExampleVariant().images;
    ExampleContributions();
    assert images[..1][..0] == [];
    assert images[..2][..1] == images[..1];
    assert images[..1][0] == images[0] && images[..2][1] == images[1];
    var empty: seq<(int, string)> := [];
    assert CollectImages(services, images[..1][..0], false) == empty;
    var first := CollectImages(services, images[..1], false);
    assert first == Assign(empty, 2, "c.jpg");
    assert first == [(2, "c.jpg")];
    assert KeysOf(first) == [2];
    assert CollectImages(services, images[..2], false) == Assign(first, 0, "a.jpg");
  }

  /**
   For images at positions 2, 0 and 1, the last one without parent media,
   the URLs come out as position 2 then position 0: the order the positions
   were met, not ascending position order.
   */
  lemma InsertionOrderNotPositionOrder()
    ensures VariantImages(ExampleServices(), ExampleVariant(), false) == ["c.jpg", "a.jpg"]
  {
    var images := ExampleVariant().images;
    ExampleContributions();
    ExampleFirstTwo();
    assert images[..3][..2] == images[..2];
    assert images[..3] == images;
  }
}
