/**
 addVariantsJson: the fold over a product's variants that builds the
 `variants` map, keyed by the cleaned value of each variant's colour option,
 first variant wins; and getNewVariant, the entry built for a key.
 */
module VariantsJson {
  import opened Catalog
  import opened UrlEscape
  import opened DetailLink
  import PhpArray
  import opened ImageResolution

  /** VARIANT_TYPE: the configurator group whose values key the map. */
  const VariantType: string := "Farbe"

  /** The array getNewVariant builds for one variant. */
  datatype Entry = Entry(productUrl: string, images: seq<string>, thumbnails: seq<string>)

  /** What addVariantsJson leaves behind: the map it built, and whether it attached the `variants` property. */
  datatype Outcome = Outcome(variants: map<string, Entry>, attached: bool)

  /**
   getNewVariant: the variant's rewritten detail URL, its image URLs (default
   paths) and its thumbnail URLs (first thumbnail paths), each list one URL
   per distinct contributing position, in first-insertion order.
   */
  function NewVariant(services: Services, config: Config, variant: Variant): (entry: Entry)
    ensures entry.productUrl == services.rewriteLink(BaseLink(config.baseFile, variant.article.id, variant.number), variant.article.name)
    ensures |entry.images| <= |variant.images| && |entry.thumbnails| <= |variant.images|
    ensures forall i :: 0 <= i < |entry.images| ==> NoBrackets(entry.images[i]) && entry.images[i] != ""
    ensures forall i :: 0 <= i < |entry.thumbnails| ==> NoBrackets(entry.thumbnails[i]) && entry.thumbnails[i] != ""
    ensures entry.images == PhpArray.ValuesByFirstKey(Contributions(services, variant.images, false))
    ensures entry.thumbnails == PhpArray.ValuesByFirstKey(Contributions(services, variant.images, true))
  {
    VariantImagesByFirstPosition(services, variant, false);
    VariantImagesByFirstPosition(services, variant, true);
    Entry(UrlByVariant(services, config, variant),
          VariantImages(services, variant, false),
          VariantImages(services, variant, true))
  }

  /** A variant takes part unless it is inactive, has no configurator options, or is out of stock while such variants are hidden. */
  predicate VariantQualifies(config: Config, variant: Variant) {
    && variant.active
    && |variant.configuratorOptions| != 0
    && !(config.hideNoInStock && variant.inStock < 1)
  }

  /**
   An option yields a key when neither its raw name nor its raw group name is
   empty and its cleaned group name is exactly VARIANT_TYPE. Emptiness is
   judged before control characters are removed.
   */
  predicate YieldsKey(services: Services, option: ConfiguratorOption) {
    && !services.isEmpty(option.name)
    && !services.isEmpty(option.groupName)
    && services.removeControlCharacters(option.groupName) == VariantType
  }

  /** The cleaned option value used as the key. */
  function KeyOf(services: Services, option: ConfiguratorOption): string {
    services.removeControlCharacters(option.name)
  }

  /** The keys a list of options yields. */
  function OptionKeys(services: Services, options: seq<ConfiguratorOption>): set<string> {
    set i | 0 <= i < |options| && YieldsKey(services, options[i]) :: KeyOf(services, options[i])
  }

  /** The keys a variant claims: those of its options when it takes part, none otherwise. */
  function VariantKeys(services: Services, config: Config, variant: Variant): set<string> {
    if VariantQualifies(config, variant) then OptionKeys(services, variant.configuratorOptions) else {}
  }

  lemma OptionKeysCons(services: Services, options: seq<ConfiguratorOption>)
    requires |options| > 0
    ensures OptionKeys(services, options) ==
              (if YieldsKey(services, options[0]) then {KeyOf(services, options[0])} else {}) +
              OptionKeys(services, options[1..])
  {
    var head := if YieldsKey(services, options[0]) then {KeyOf(services, options[0])} else {};
    forall k | k in OptionKeys(services, options)
      ensures k in head + OptionKeys(services, options[1..])
    {
      var i :| 0 <= i < |options| && YieldsKey(services, options[i]) && KeyOf(services, options[i]) == k;
      if i > 0 {
        assert options[1..][i - 1] == options[i];
      }
    }
    forall k | k in OptionKeys(services, options[1..])
      ensures k in OptionKeys(services, options)
    {
      var i :| 0 <= i < |options[1..]| && YieldsKey(services, options[1..][i]) && KeyOf(services, options[1..][i]) == k;
      assert options[i + 1] == options[1..][i];
    }
  }

  /**
   The inner loop of addVariantsJson over one variant's options: a key that
   is already present is left alone, a new key gets the variant's entry.
   */
  function AddOptions(services: Services, config: Config, acc: map<string, Entry>, variant: Variant, options: seq<ConfiguratorOption>): (r: map<string, Entry>)
    ensures r.Keys == acc.Keys + OptionKeys(services, options)
    ensures forall k :: k in acc ==> r[k] == acc[k]
    ensures forall k :: k in r && k !in acc ==> r[k] == NewVariant(services, config, variant)
    decreases |options|
  {
    if |options| == 0 then acc
    else
      var option := options[0];
      var next :=
        if YieldsKey(services, option) && KeyOf(services, option) !in acc
        then acc[KeyOf(services, option) := NewVariant(services, config, variant)]
        else acc;
      OptionKeysCons(services, options);
      AddOptions(services, config, next, variant, options[1..])
  }

  /**
   One pass of the outer loop: a variant that does not take part leaves the
   map as it is; one that does adds its own entry under each of its keys not
   yet present and changes no existing entry.
   */
  function AddVariant(services: Services, config: Config, acc: map<string, Entry>, variant: Variant): (r: map<string, Entry>)
    ensures !VariantQualifies(config, variant) ==> r == acc
    ensures r.Keys == acc.Keys + VariantKeys(services, config, variant)
    ensures forall k :: k in acc ==> r[k] == acc[k]
    ensures forall k :: k in r && k !in acc ==> r[k] == NewVariant(services, config, variant)
  {
    if !VariantQualifies(config, variant) then acc
    else AddOptions(services, config, acc, variant, variant.configuratorOptions)
  }

  /** The outer loop of addVariantsJson, over the variants in order. */
  function CollectVariants(services: Services, config: Config, acc: map<string, Entry>, variants: seq<Variant>): map<string, Entry>
    decreases |variants|
  {
    if |variants| == 0 then acc
    else CollectVariants(services, config, AddVariant(services, config, acc, variants[0]), variants[1..])
  }

  /**
   addVariantsJson: build the map from an empty start; the `variants`
   property is attached exactly when the map has an entry.
   */
  function AddVariantsJson(services: Services, config: Config, variants: seq<Variant>): (out: Outcome)
    ensures out.attached <==> out.variants != map[]
    ensures |variants| == 0 ==> !out.attached
  {
    var built := CollectVariants(services, config, map[], variants);
    Outcome(built, |built| != 0)
  }

  /** The index of the first variant that claims `key`, if any. */
  function FirstClaimant(services: Services, config: Config, variants: seq<Variant>, key: string): (r: Option<nat>)
    ensures r.Some? ==>
              && r.value < |variants|
              && key in VariantKeys(services, config, variants[r.value])
              && forall j :: 0 <= j < r.value ==> key !in VariantKeys(services, config, variants[j])
    ensures r.None? ==> forall j :: 0 <= j < |variants| ==> key !in VariantKeys(services, config, variants[j])
  {
    if |variants| == 0 then None
    else if key in VariantKeys(services, config, variants[0]) then Some(0)
    else
      match FirstClaimant(services, config, variants[1..], key)
      case None => None
      case Some(i) => Some(i + 1)
  }

  /** The fold from any starting map: entries already there survive; a new key holds its first claimant's entry. */
  lemma {:induction false} CollectVariantsFirstClaimant(services: Services, config: Config, acc: map<string, Entry>, variants: seq<Variant>, key: string)
    ensures key in acc ==> key in CollectVariants(services, config, acc, variants) &&
                           CollectVariants(services, config, acc, variants)[key] == acc[key]
    ensures key !in acc ==>
              (key in CollectVariants(services, config, acc, variants) <==> FirstClaimant(services, config, variants, key).Some?)
    ensures key !in acc && key in CollectVariants(services, config, acc, variants) ==>
              CollectVariants(services, config, acc, variants)[key] ==
              NewVariant(services, config, variants[FirstClaimant(services, config, variants, key).value])
    decreases |variants|
  {
    if |variants| > 0 {
      var next := AddVariant(services, config, acc, variants[0]);
      CollectVariantsFirstClaimant(services, config, next, variants[1..], key);
      if key !in acc && key !in next {
        var rest := FirstClaimant(services, config, variants[1..], key);
        if rest.Some? {
          assert variants[1..][rest.value] == variants[rest.value + 1];
        }
      }
    }
  }

  /**
   First seen wins: a key is in the map exactly when some taking-part
   variant has an option yielding it, and its entry is the one built from
   the first such variant in input order.
   */
  lemma AddVariantsJsonFirstSeenWins(services: Services, config: Config, variants: seq<Variant>, key: string)
    ensures key in AddVariantsJson(services, config, variants).variants <==>
              exists i :: 0 <= i < |variants| && key in VariantKeys(services, config, variants[i])
    ensures key in AddVariantsJson(services, config, variants).variants ==>
              exists i :: && 0 <= i < |variants|
                          && key in VariantKeys(services, config, variants[i])
                          && (forall j :: 0 <= j < i ==> key !in VariantKeys(services, config, variants[j]))
                          && AddVariantsJson(services, config, variants).variants[key] == NewVariant(services, config, variants[i])
  {
    CollectVariantsFirstClaimant(services, config, map[], variants, key);
    var first := FirstClaimant(services, config, variants, key);
    if first.Some? {
      assert key in VariantKeys(services, config, variants[first.value]);
    }
  }

  /** Running the outer loop over `a + b` is running it over `a`, then over `b`. */
  lemma {:induction false} CollectVariantsAppend(services: Services, config: Config, acc: map<string, Entry>, a: seq<Variant>, b: seq<Variant>)
    ensures CollectVariants(services, config, acc, a + b) ==
              CollectVariants(services, config, CollectVariants(services, config, acc, a), b)
    decreases |a|
  {
    if |a| == 0 {
      assert a + b == b;
    } else {
      assert (a + b)[0] == a[0];
      assert (a + b)[1..] == a[1..] + b;
      CollectVariantsAppend(services, config, AddVariant(services, config, acc, a[0]), a[1..], b);
    }
  }

  /** A variant that does not take part, wherever it stands in the list, changes nothing in the outcome. */
  lemma {:induction false} ExcludedVariantIsInert(services: Services, config: Config, a: seq<Variant>, variant: Variant, b: seq<Variant>)
    requires !VariantQualifies(config, variant)
    ensures AddVariantsJson(services, config, a + [variant] + b) == AddVariantsJson(services, config, a + b)
  {
    var start: map<string, Entry> := map[];
    CollectVariantsAppend(services, config, start, a + [variant], b);
    CollectVariantsAppend(services, config, start, a, [variant]);
    CollectVariantsAppend(services, config, start, a, b);
    var afterA := CollectVariants(services, config, start, a);
    assert CollectVariants(services, config, afterA, [variant]) == afterA by {
      assert [variant][1..] == [];
    }
  }
}
