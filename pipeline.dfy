/** How the two halves meet: the manifest the maintenance script writes is the one
    the page reads, and the names the script gives files decide how the page shows
    them. */
module Pipeline {
  import opened Text
  import Gallery
  import UpdateGallery

  /** The manifest as the page parses it: `json.dump` writes the categories in the
      order of `CATEGORIES`, each with its list. */
  function WrittenManifest(manifest: map<string, seq<string>>): Gallery.Manifest {
    Gallery.Manifest(UpdateGallery.Categories, manifest)
  }

  /** What `UpdateGalleryManifest` promises about the manifest it returns. */
  ghost predicate IsScriptManifest(media: map<string, UpdateGallery.Directory>,
                                   listings: map<string, seq<string>>,
                                   oracle: string -> nat -> bool,
                                   manifest: map<string, seq<string>>)
    requires forall c :: c in media ==> c in listings
  {
    && (forall c :: c in manifest <==> c in UpdateGallery.Categories)
    && (forall c :: c in UpdateGallery.Categories ==>
          manifest[c] == UpdateGallery.CategoryEntries(media, listings, oracle, c))
  }

  /** Every folder's listing is what `os.listdir` would give for it. */
  ghost predicate Listed(media: map<string, UpdateGallery.Directory>, listings: map<string, seq<string>>) {
    forall c :: c in media ==> c in listings && UpdateGallery.IsListing(listings[c], media[c])
  }

  /** Renaming keeps the media type of a visible file that has a dot: the new name
      ends in the same extension, lower-cased, and the page lower-cases it anyway. */
  lemma RenamingKeepsExtension(i: nat, f: string)
    requires !UpdateGallery.Hidden(f) && '.' in f
    ensures Gallery.Extension(UpdateGallery.NewName(i, f)) == Gallery.Extension(f)
    ensures Gallery.Classify(UpdateGallery.NewName(i, f)) == Gallery.Classify(f)
  {
    UpdateGallery.VisibleDottedExtension(f);
    UpdateGallery.NewNameOfExtension(i, f);
    var stem, e := UpdateGallery.SplitExt(f).0, UpdateGallery.SplitExt(f).1[1..];
    Gallery.ExtensionAfterDot(stem, e);
    ToLowerDotless(e);
    Gallery.ExtensionAfterDot(DecimalString(i + 1), ToLower(e));
    ToLowerIdempotent(e);
  }

  /** A file without a dot becomes a bare number, which the page cannot show,
      whatever its old name was classified as. */
  lemma DotlessRenamedUnknown(i: nat, f: string)
    requires '.' !in f
    ensures Gallery.Classify(UpdateGallery.NewName(i, f)) == Gallery.Unknown
  {
    UpdateGallery.NewNameOfDotless(i, f);
    var digits := DecimalString(i + 1);
    assert '.' !in digits by {
      forall k | 0 <= k < |digits|
        ensures digits[k] != '.'
      {
        assert IsDigit(digits[k]);
      }
    }
    Gallery.ClassifyDigitLed(digits);
  }

  /** A dot-less `png` is an image before the renaming and unknown after it. */
  lemma DotlessImageLost()
    ensures Gallery.Classify("png") == Gallery.Image
    ensures Gallery.Classify(UpdateGallery.NewName(0, "png")) == Gallery.Unknown
  {
    Gallery.ClassifyDotlessExamples();
    DotlessRenamedUnknown(0, "png");
  }

  /** The written manifest is a well-formed JSON object: each category once, each
      with its list. */
  lemma ScriptManifestWellFormed(media: map<string, UpdateGallery.Directory>,
                                 listings: map<string, seq<string>>,
                                 oracle: string -> nat -> bool,
                                 manifest: map<string, seq<string>>)
    requires forall c :: c in media ==> c in listings
    requires IsScriptManifest(media, listings, oracle, manifest)
    ensures Gallery.WellFormed(WrittenManifest(manifest))
  {
    UpdateGallery.CategoriesDistinct();
  }

  /** A category tab shows the script's list for it, in order. */
  lemma ScriptManifestCategoryTab(media: map<string, UpdateGallery.Directory>,
                                  listings: map<string, seq<string>>,
                                  oracle: string -> nat -> bool,
                                  manifest: map<string, seq<string>>, c: string)
    requires forall c :: c in media ==> c in listings
    requires IsScriptManifest(media, listings, oracle, manifest)
    requires c in UpdateGallery.Categories
    ensures Gallery.Build(WrittenManifest(manifest), c)
         == Gallery.Tagged(c, UpdateGallery.CategoryEntries(media, listings, oracle, c))
  {
    assert c != "all";
  }

  /** A category whose folder did not exist shows the "no content" text. */
  lemma MissingFolderPlaceholder(media: map<string, UpdateGallery.Directory>,
                                 listings: map<string, seq<string>>,
                                 oracle: string -> nat -> bool,
                                 manifest: map<string, seq<string>>, c: string)
    requires forall c :: c in media ==> c in listings
    requires IsScriptManifest(media, listings, oracle, manifest)
    requires c in UpdateGallery.Categories && c !in media
    ensures Gallery.View(WrittenManifest(manifest), c) == Gallery.Placeholder("No content yet for " + c + ".")
  {
    ScriptManifestCategoryTab(media, listings, oracle, manifest, c);
    assert c != "all";
  }

  /** The 'all' tab lists exactly the pairs of a category and a name in its list,
      and no name it shows is hidden. */
  lemma ScriptManifestAllTab(media: map<string, UpdateGallery.Directory>,
                             listings: map<string, seq<string>>,
                             oracle: string -> nat -> bool,
                             manifest: map<string, seq<string>>)
    requires Listed(media, listings)
    requires IsScriptManifest(media, listings, oracle, manifest)
    ensures forall c, f :: Gallery.MediaItem(c, f) in Gallery.Build(WrittenManifest(manifest), "all") <==>
      c in UpdateGallery.Categories && f in UpdateGallery.CategoryEntries(media, listings, oracle, c)
    ensures forall k :: 0 <= k < |Gallery.Build(WrittenManifest(manifest), "all")| ==>
      !UpdateGallery.Hidden(Gallery.Build(WrittenManifest(manifest), "all")[k].fileName)
  {
    var m := WrittenManifest(manifest);
    var items := Gallery.Build(m, "all");
    ScriptManifestWellFormed(media, listings, oracle, manifest);
    forall c, f
      ensures Gallery.MediaItem(c, f) in items <==>
        c in UpdateGallery.Categories && f in UpdateGallery.CategoryEntries(media, listings, oracle, c)
    {
      Gallery.BuildAllMembers(m, c, f);
    }
    forall k | 0 <= k < |items|
      ensures !UpdateGallery.Hidden(items[k].fileName)
    {
      var c, f := items[k].category, items[k].fileName;
      assert items[k] == Gallery.MediaItem(c, f);
      Gallery.BuildAllMembers(m, c, f);
      assert c in media;
      var entries := UpdateGallery.FolderEntries(media[c], listings[c], oracle(c));
      var j :| 0 <= j < |entries| && entries[j] == f;
      UpdateGallery.FolderEntriesVisible(media[c], listings[c], oracle(c));
    }
  }
}
