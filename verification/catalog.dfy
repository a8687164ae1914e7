/**
 The read-only catalog entities the variant aggregator works on, and the
 collaborators it delegates to. The Shopware entities (variant details,
 configurator options, images, media) become immutable datatypes; the
 services and helpers whose code is not part of this model become
 function-valued fields of `Services`, and the two configuration values the
 aggregator reads become `Config`.
 */
module Catalog {

  datatype Option<+T> = None | Some(value: T)

  /** A configurator option: one (group name, value name) axis of variation, as stored, before any cleaning. */
  datatype ConfiguratorOption = ConfiguratorOption(name: string, groupName: string)

  /** The two path reads of a media entity: its thumbnail file paths (in the order the entity lists them) and its default path. */
  datatype MediaPaths = MediaPaths(thumbnailFilePaths: seq<string>, path: string)

  /** A media entity. `paths` is None when reading the paths fails because the entity has been removed. */
  datatype Media = Media(paths: Option<MediaPaths>)

  /** The parent (article-level) image a variant image derives from. */
  datatype ParentImage = ParentImage(media: Option<Media>)

  /** A variant's image: its position and its optional parent image. */
  datatype VariantImage = VariantImage(position: int, parent: Option<ParentImage>)

  /** The article a variant belongs to: internal id and display name. */
  datatype Article = Article(id: int, name: string)

  /** A variant (a Shopware article detail). */
  datatype Variant = Variant(
    active: bool,
    inStock: int,
    configuratorOptions: seq<ConfiguratorOption>,
    images: seq<VariantImage>,
    article: Article,
    number: string)

  /**
   The collaborators whose code is outside this model:
   - isEmpty: the shop plugin's emptiness test on a string;
   - removeControlCharacters: its control-character stripping;
   - getUrl: the media service turning a storage path into a public URL;
   - rewriteLink: the core module's SEO rewriting of (base link, title).
   */
  datatype Services = Services(
    isEmpty: string -> bool,
    removeControlCharacters: string -> string,
    getUrl: string -> string,
    rewriteLink: (string, string) -> string)

  /** The two shop configuration values the aggregator reads. */
  datatype Config = Config(hideNoInStock: bool, baseFile: string)
}
