# Variant metadata of the Findologic article export, in Dafny

This project models the variant-metadata part of the extended
`FindologicArticleModel` of the Findologic Shopware 5 extension plugin.
When an article is exported, `addVariantsJson` walks the article's variants
(Shopware "details") and builds a map from the cleaned value of each
variant's colour option (configurator group `Farbe`) to an entry holding the
variant's SEO product URL, its image URLs and its thumbnail URLs. The first
variant that claims a colour wins. The map is attached to the export item as
a `variants` property when it has at least one entry.

Modules, one per part of the source:

- `Catalog` (catalog.dfy): the catalog entities as immutable datatypes
  (variant, configurator option, variant image, parent image, media,
  article). It also holds the collaborators whose code is not part of this
  model. They are function-valued fields of `Services`: the plugin's
  `StaticHelper::isEmpty` and `removeControlCharacters`, the media service's
  `getUrl`, and the core module's `sRewriteLink`. The two shop
  configuration values read (`hideNoInStock`, `baseFile`) form `Config`.
- `UrlEscape` (url_escape.dfy): `strtr` with `URL_REPLACEMENTS`, and its
  inverse `Unescape`.
- `DetailLink` (detail_link.dfy): `getBaseLinkByVariant`'s `sprintf`
  format, including PHP's decimal text of the article id. Also
  `getUrlByVariant`, and `ParseBaseLink`, which reads a link back.
- `PhpArray` (php_array.dfy): the slice of PHP's insertion-ordered arrays
  that `getVariantImages` relies on. `$a[k] = v` overwrites in place or
  appends, and `array_values` lists values in slot order. It also gives a
  reference reading: keys in first-assignment order, each with its
  last-assigned value.
- `ImageResolution` (image_resolution.dfy): `getImageUrlByImage` and
  `getVariantImages`.
- `ImageExamples` (image_examples.dfy): a worked example of
  `getVariantImages` on concrete images.
- `VariantsJson` (variants_json.dfy): `VARIANT_TYPE`, `getNewVariant` and
  `addVariantsJson`. It comes with a declarative reference (`FirstClaimant`)
  and the first-seen-wins theorem.

Three points of the code's behaviour that the model keeps exactly:

- Image order: `array_values` lists positions in the order they were
  first assigned, and a later image at the same position replaces the URL
  in its slot without moving it. The code never sorts by position;
  `ImageExamples.InsertionOrderNotPositionOrder` shows images at positions
  2, 0, 1, the last without media, coming out as position 2 then 0.
- Emptiness is judged on the raw option and group names (lines 100-101),
  before control characters are stripped (lines 106-107).
- An image URL counts only when it is truthy in PHP, so an empty URL and
  the URL `"0"` are both dropped (line 151).

## Model

| member | source | states |
|---|---|---|
| `UrlEscape.Escape` | ExtendFinSearchUnified/BusinessLogic/Models/FindologicArticleModel.php:21-24 | the rewritten URL contains no `[` or `]`; its length is the original length plus 2 per bracket; a URL without brackets is returned unchanged |
| `UrlEscape.EscapeAppend` | ExtendFinSearchUnified/BusinessLogic/Models/FindologicArticleModel.php:182-183 | strtr is a single left-to-right pass: the rewrite of a concatenation is the concatenation of the rewrites, so every character is rewritten in place and in order |
| `UrlEscape.EscapeIdempotent` | ExtendFinSearchUnified/BusinessLogic/Models/FindologicArticleModel.php:182-183 | applying the bracket rewrite a second time changes nothing |
| `UrlEscape.UnescapeEscape` | ExtendFinSearchUnified/BusinessLogic/Models/FindologicArticleModel.php:21-24 | decoding `%5B`/`%5D` restores the original URL whenever the original held no literal `%5B`/`%5D`, so no other character is lost or altered |
| `DetailLink.ParseIntToString` | ExtendFinSearchUnified/BusinessLogic/Models/FindologicArticleModel.php:209 | the decimal text `%s` gives the article id reads back as that same integer, negative ids included |
| `DetailLink.BaseLink` | ExtendFinSearchUnified/BusinessLogic/Models/FindologicArticleModel.php:204-212 | the detail link starts with the configured base file and ends with the order number; its length is the sum of the base file, the two fixed query texts, the id text and the number |
| `DetailLink.ParseBaseLinkRoundTrip` | ExtendFinSearchUnified/BusinessLogic/Models/FindologicArticleModel.php:206-211 | the link has exactly the form `baseFile?sViewport=detail&sArticle=<id>&number=<number>`: reading it back after the fixed prefix yields the same id and order number, whatever characters the number holds |
| `PhpArray.Assign` | ExtendFinSearchUnified/BusinessLogic/Models/FindologicArticleModel.php:152 | `$images[position] = url` keeps keys distinct, replaces the value of an existing key in its slot without moving it, and appends a new key at the end |
| `PhpArray.AssignAllKeys` | ExtendFinSearchUnified/BusinessLogic/Models/FindologicArticleModel.php:152 | after a run of assignments the keys are the distinct assigned keys in first-assignment order |
| `PhpArray.AssignAllValues` | ExtendFinSearchUnified/BusinessLogic/Models/FindologicArticleModel.php:152 | after a run of assignments every slot holds the value last assigned to its key |
| `PhpArray.FirstOccurrencesOrder` | ExtendFinSearchUnified/BusinessLogic/Models/FindologicArticleModel.php:152 | when two keys are first assigned at steps `i < j`, the key of step `i` stands before the key of step `j` in the resulting key order |
| `PhpArray.AssignAllValuesByFirstKey` | ExtendFinSearchUnified/BusinessLogic/Models/FindologicArticleModel.php:156 | `array_values` after the assignments equals the reference reading: one value per distinct key, in first-assignment order, each the last value assigned |
| `ImageResolution.ImageUrlByImage` | ExtendFinSearchUnified/BusinessLogic/Models/FindologicArticleModel.php:164-187 | null exactly when the media is absent, reading its paths fails, or it has no thumbnail paths; otherwise the escaped service URL of the first thumbnail path when a thumbnail is asked for, else of the default path; never contains a bracket |
| `ImageResolution.Contribution` | ExtendFinSearchUnified/BusinessLogic/Models/FindologicArticleModel.php:146-153 | an image contributes exactly when it has a parent and the parent's resolved URL is truthy in PHP (not null, not `""`, not `"0"`), and what it contributes is that resolved URL |
| `ImageResolution.CollectImages` | ExtendFinSearchUnified/BusinessLogic/Models/FindologicArticleModel.php:142-154 | the position-keyed array has distinct positions, no more slots than images, and only truthy bracket-free URLs |
| `ImageResolution.VariantImages` | ExtendFinSearchUnified/BusinessLogic/Models/FindologicArticleModel.php:140-157 | at most one URL per image, each non-empty, not `"0"` and free of brackets |
| `ImageResolution.CollectImagesAssignsContributions` | ExtendFinSearchUnified/BusinessLogic/Models/FindologicArticleModel.php:145-154 | the loop is the run of `$images[position] = url` over exactly the contributing images, in the variant's image order |
| `ImageResolution.VariantImagesByFirstPosition` | ExtendFinSearchUnified/BusinessLogic/Models/FindologicArticleModel.php:140-157 | the result has one URL per distinct contributing position, positions in first-insertion order, each with the URL of the last contributing image at that position |
| `ImageResolution.UnresolvableImageIsInert` | ExtendFinSearchUnified/BusinessLogic/Models/FindologicArticleModel.php:146-153 | an image without parent, without parent media, or with a falsy URL changes nothing, wherever it stands in the image list |
| `ImageExamples.InsertionOrderNotPositionOrder` | ExtendFinSearchUnified/BusinessLogic/Models/FindologicArticleModel.php:152-156 | images at positions 2, 0, 1 with position 1 unresolvable give the position-2 URL before the position-0 URL: no sorting by position |
| `VariantsJson.NewVariant` | ExtendFinSearchUnified/BusinessLogic/Models/FindologicArticleModel.php:126-133 | the entry's product URL is the rewrite service's answer for the detail link and the article name; `images` is the reference reading of the default-path resolution and `thumbnails` that of the first-thumbnail resolution (one URL per distinct position, first-insertion order, last URL per position); both have at most one URL per image, none empty or bracketed |
| `VariantsJson.AddOptions` | ExtendFinSearchUnified/BusinessLogic/Models/FindologicArticleModel.php:99-112 | the keys added are exactly the cleaned values of options whose raw name and raw group name are non-empty and whose cleaned group is `Farbe`; existing entries are unchanged; every new entry is the variant's entry |
| `VariantsJson.AddVariant` | ExtendFinSearchUnified/BusinessLogic/Models/FindologicArticleModel.php:91-113 | an inactive, option-less, or hidden out-of-stock variant leaves the map identical; any variant changes no existing entry and adds only its own entry under its new keys |
| `VariantsJson.AddVariantsJson` | ExtendFinSearchUnified/BusinessLogic/Models/FindologicArticleModel.php:115-119 | the `variants` property is attached exactly when the map is non-empty; an empty variant list attaches nothing |
| `VariantsJson.FirstClaimant` | ExtendFinSearchUnified/BusinessLogic/Models/FindologicArticleModel.php:109-111 | reference definition: the least index whose variant takes part and has an option yielding the key, or none when no variant does |
| `VariantsJson.CollectVariantsFirstClaimant` | ExtendFinSearchUnified/BusinessLogic/Models/FindologicArticleModel.php:91-113 | from any starting map the fold keeps existing entries, and a new key is present exactly when some variant claims it, holding the first claimant's entry |
| `VariantsJson.AddVariantsJsonFirstSeenWins` | ExtendFinSearchUnified/BusinessLogic/Models/FindologicArticleModel.php:86-120 | a key is in the map iff some taking-part variant claims it, and its entry is built from the first claiming variant in input order |
| `VariantsJson.ExcludedVariantIsInert` | ExtendFinSearchUnified/BusinessLogic/Models/FindologicArticleModel.php:92-97 | inserting a variant that does not take part anywhere in the list leaves both the map and the attach decision unchanged |

## Left out

- The constructor, `setProperties`, the parent export model and the commented-out wiring at lines 40-44 are lifecycle plumbing. As written, that wiring leaves the media service unset and `addVariantsJson` uncalled. The model assumes the service is present, as the commented line would provide.
- `json_encode`, `Property` and `xmlArticle->addProperty` are serialisation in the export library. They are modelled as the resulting map plus an `attached` flag.
- JSON key order is not modelled: the map is a Dafny `map`. PHP turns integer-like string keys into integer keys, and `json_encode` turns a map keyed `0..n-1` into a JSON list. Both effects are serialisation details outside the model.
- `StaticHelper::isEmpty` and `removeControlCharacters` are abstract functions in `Services`, because their code is not part of this model. At line 115 `isEmpty` is applied to the array itself, not to a string. That check is modelled as "the map has no entries".
- `mediaService->getUrl` and `sRewriteLink` are foreign services and are passed in as functions. `DetailLink.UrlByVariant` only forwards the detail link and article name to `sRewriteLink`, so it carries no contract of its own.
- The Shopware config lookups are parameters (`Config.hideNoInStock`, `Config.baseFile`). `hideNoInStock` is taken as a boolean rather than any PHP-truthy value.
- The `try`/`catch` at lines 172-178 is `Media.paths` being `None`. The `instanceof Media` test at line 168 is `ParentImage.media` being `None`.
- Fatal errors from null objects are not modelled. Examples are an option without a group, or a variant without an article. Variant image positions are integers; a null position is not modelled.
- `strtr` is modelled only for a table whose keys are single characters, which is the only table it is used with here. With such a table, strtr's longest-match-first rule has no effect.
