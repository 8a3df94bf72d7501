/** The browser side of the gallery: how the list of media items for a tab is built
    from the manifest, how each file name is classified and given its path, how the
    grid is filled, and the fullscreen viewer's state. */
module Gallery {
  import opened Text

  datatype MediaType = Image | Video | Unknown

  /** One entry of the list of files to show: `{ category, fileName }`. */
  datatype MediaItem = MediaItem(category: string, fileName: string)

  /** The parsed manifest object: `keys` are its property names in `Object.keys`
      order and `lists` maps each to its array of file names. */
  datatype Manifest = Manifest(keys: seq<string>, lists: map<string, seq<string>>)

  /** What a JSON object gives: every key once, and exactly the keys of `lists`. */
  ghost predicate WellFormed(m: Manifest) {
    && (forall i, j :: 0 <= i < j < |m.keys| ==> m.keys[i] != m.keys[j])
    && (forall k :: k in m.lists <==> k in m.keys)
  }

  const ImageExtensions: set<string> := {"png", "jpg", "jpeg", "gif", "webp"}
  const VideoExtensions: set<string> := {"mp4", "webm", "ogg"}

  /** `fileName.split('.').pop().toLowerCase()`. */
  function Extension(fileName: string): string {
    ToLower(AfterLastDot(fileName))
  }

  /** The media type a file name gets from its lower-cased extension. */
  function Classify(fileName: string): (r: MediaType)
    ensures r == Image <==> Extension(fileName) in ImageExtensions
    ensures r == Video <==> Extension(fileName) in VideoExtensions
    ensures r == Unknown <==> Extension(fileName) !in ImageExtensions + VideoExtensions
  {
    var ext := Extension(fileName);
    if ext in ImageExtensions then Image
    else if ext in VideoExtensions then Video
    else Unknown
  }

  /** The extension holds no dot; a name without a dot is its own extension,
      lower-cased. */
  lemma ExtensionOfDotless(fileName: string)
    ensures '.' !in Extension(fileName)
    ensures '.' !in fileName ==> Extension(fileName) == ToLower(fileName)
  {
    AfterLastDotSpec(fileName);
    ToLowerDotless(AfterLastDot(fileName));
    if '.' !in fileName {
      AfterLastDotDotless(fileName);
    }
  }

  /** The extension of `stem.ext`, for a dot-free `ext`, is `ext` lower-cased,
      whatever dots the stem holds. */
  lemma ExtensionAfterDot(stem: string, ext: string)
    requires '.' !in ext
    ensures Extension(stem + "." + ext) == ToLower(ext)
  {
    AfterLastDotAppend(stem, ext);
  }

  /** Names that differ only in letter case get the same type. */
  lemma ClassifyIgnoresCase(a: string, b: string)
    requires ToLower(a) == ToLower(b)
    ensures Classify(a) == Classify(b)
  {
    AfterLastDotLower(a);
    AfterLastDotLower(b);
    assert Extension(a) == AfterLastDot(ToLower(a));
    assert Extension(b) == AfterLastDot(ToLower(b));
  }

  /** The extension of a name spelled as a stem, a dot and a dot-free `ext`. */
  lemma ExtensionOfSpelled(name: string, stem: string, ext: string, lower: string)
    requires '.' !in ext && name == stem + "." + ext && lower == ToLower(ext)
    ensures Extension(name) == lower
  {
    ExtensionAfterDot(stem, ext);
  }

  lemma ExampleLowerNames()
    ensures Extension("b.mp4") == "mp4"
    ensures Extension("photo.backup.jpeg") == "jpeg"
    ensures Extension("archive.png.zip") == "zip"
  {
    ToLowerNoCapitals("mp4");
    ToLowerNoCapitals("jpeg");
    ToLowerNoCapitals("zip");
    ExtensionOfSpelled("b.mp4", "b", "mp4", "mp4");
    ExtensionOfSpelled("photo.backup.jpeg", "photo.backup", "jpeg", "jpeg");
    ExtensionOfSpelled("archive.png.zip", "archive.png", "zip", "zip");
  }

  /** Some file names and the types they get. */
  lemma ClassifyExamples()
    ensures Classify("b.mp4") == Video
    ensures Classify("Clip.WebM") == Video
    ensures Classify("a.PNG") == Image
    ensures Classify("photo.backup.jpeg") == Image
    ensures Classify("archive.png.zip") == Unknown
  {
    assert ToLower("WebM") == "webm";
    ExtensionOfSpelled("Clip.WebM", "Clip", "WebM", "webm");
    assert ToLower("PNG") == "png";
    ExtensionOfSpelled("a.PNG", "a", "PNG", "png");
    ExampleLowerNames();
  }

  /** A dot-less name is classified by the whole name, so a file called `png`
      counts as an image and one called `README` as unknown. */
  lemma ClassifyDotlessExamples()
    ensures Classify("png") == Image
    ensures Classify("MP4") == Video
    ensures Classify("README") == Unknown
  {
    ToLowerNoCapitals("png");
    assert ToLower("MP4") == "mp4";
    ExtensionOfDotless("png");
    ExtensionOfDotless("MP4");
    ExtensionOfDotless("README");
  }

  /** A dot-less name starting with a digit is of unknown type: every known
      extension starts with a letter. */
  lemma ClassifyDigitLed(s: string)
    requires '.' !in s && s != [] && IsDigit(s[0])
    ensures Classify(s) == Unknown
  {
    ExtensionOfDotless(s);
    var e := Extension(s);
    assert e[0] == s[0];
    assert forall x :: x in ImageExtensions + VideoExtensions ==> x != [] && !IsDigit(x[0]);
  }

  /** `./media/<category>/<fileName>`. */
  function FullPath(category: string, fileName: string): string {
    "./media/" + category + "/" + fileName
  }

  /** After the `./media/` prefix, the first slash of a path ends the category. */
  lemma FirstSlashAfterPrefix(c: string, f: string)
    requires '/' !in c
    ensures FullPath(c, f)[|"./media/"| + |c|] == '/'
    ensures forall i :: |"./media/"| <= i < |"./media/"| + |c| ==> FullPath(c, f)[i] != '/'
  {
    var n := |"./media/"|;
    forall i | n <= i < n + |c|
      ensures FullPath(c, f)[i] != '/'
    {
      assert FullPath(c, f)[i] == c[i - n];
    }
  }

  /** A path names one category and one file: when category names hold no slash,
      both can be read back from the path. */
  lemma FullPathInjective(c1: string, f1: string, c2: string, f2: string)
    requires '/' !in c1 && '/' !in c2
    requires FullPath(c1, f1) == FullPath(c2, f2)
    ensures c1 == c2 && f1 == f2
  {
    var p1, p2 := FullPath(c1, f1), FullPath(c2, f2);
    var n := |"./media/"|;
    FirstSlashAfterPrefix(c1, f1);
    FirstSlashAfterPrefix(c2, f2);
    assert c1 == p1[n..n + |c1|];
    assert c2 == p2[n..n + |c2|];
    assert f1 == p1[n + |c1| + 1..];
    assert f2 == p2[n + |c2| + 1..];
  }

  /** The items for one category's list, each tagged with that category. */
  function Tagged(category: string, files: seq<string>): seq<MediaItem> {
    seq(|files|, k requires 0 <= k < |files| => MediaItem(category, files[k]))
  }

  /** The items of the listed keys' categories, concatenated in the order of `keys`;
      a key without a list adds nothing. */
  function KeysItems(m: Manifest, keys: seq<string>): seq<MediaItem>
    decreases |keys|
  {
    if keys == [] then []
    else
      var c := keys[|keys| - 1];
      KeysItems(m, keys[..|keys| - 1]) + (if c in m.lists then Tagged(c, m.lists[c]) else [])
  }

  /** The list `loadMedia(tab)` shows: for 'all' every category in key order,
      otherwise the named category's list, or nothing when it is absent. */
  function Build(m: Manifest, tab: string): seq<MediaItem> {
    if tab == "all" then KeysItems(m, m.keys)
    else if tab in m.lists then Tagged(tab, m.lists[tab])
    else []
  }

  /** Total number of files listed under the given keys. */
  function TotalFiles(m: Manifest, keys: seq<string>): nat
    decreases |keys|
  {
    if keys == [] then 0
    else
      var c := keys[|keys| - 1];
      TotalFiles(m, keys[..|keys| - 1]) + (if c in m.lists then |m.lists[c]| else 0)
  }

  /** A named category's tab lists exactly that category's files, in order. */
  lemma BuildForCategory(m: Manifest, tab: string)
    requires tab != "all" && tab in m.lists
    ensures |Build(m, tab)| == |m.lists[tab]|
    ensures forall k :: 0 <= k < |m.lists[tab]| ==> Build(m, tab)[k] == MediaItem(tab, m.lists[tab][k])
  {
  }

  /** A tab whose key is missing lists nothing and shows the "no content" text. */
  lemma BuildForAbsent(m: Manifest, tab: string)
    requires tab != "all" && tab !in m.lists
    ensures Build(m, tab) == []
    ensures View(m, tab) == Placeholder("No content yet for " + tab + ".")
  {
  }

  lemma {:induction false} KeysItemsLength(m: Manifest, keys: seq<string>)
    ensures |KeysItems(m, keys)| == TotalFiles(m, keys)
    decreases |keys|
  {
    if keys != [] {
      KeysItemsLength(m, keys[..|keys| - 1]);
    }
  }

  /** The 'all' tab holds as many items as the manifest lists files. */
  lemma BuildAllLength(m: Manifest)
    ensures |Build(m, "all")| == TotalFiles(m, m.keys)
  {
    KeysItemsLength(m, m.keys);
  }

  lemma {:induction false} KeysItemsMembers(m: Manifest, keys: seq<string>, c: string, f: string)
    ensures MediaItem(c, f) in KeysItems(m, keys) <==> c in keys && c in m.lists && f in m.lists[c]
    decreases |keys|
  {
    if keys != [] {
      var init, last := keys[..|keys| - 1], keys[|keys| - 1];
      KeysItemsMembers(m, init, c, f);
      assert keys == init + [last];
      var tail := if last in m.lists then Tagged(last, m.lists[last]) else [];
      assert KeysItems(m, keys) == KeysItems(m, init) + tail;
      if c == last && c in m.lists && f in m.lists[c] {
        var k :| 0 <= k < |m.lists[c]| && m.lists[c][k] == f;
        assert tail[k] == MediaItem(c, f);
      }
    }
  }

  /** The 'all' tab shows a file of a category exactly when the manifest lists it
      there. */
  lemma BuildAllMembers(m: Manifest, c: string, f: string)
    requires WellFormed(m)
    ensures MediaItem(c, f) in Build(m, "all") <==> c in m.lists && f in m.lists[c]
  {
    KeysItemsMembers(m, m.keys, c, f);
  }

  /** Appends one item per file, in order (`files.forEach(file => filesToLoad.push(...))`). */
  method PushTagged(items: seq<MediaItem>, category: string, files: seq<string>)
    returns (r: seq<MediaItem>)
    ensures r == items + Tagged(category, files)
  {
    r := items;
    var j := 0;
    while j < |files|
      invariant 0 <= j <= |files|
      invariant r == items + Tagged(category, files[..j])
    {
      r := r + [MediaItem(category, files[j])];
      j := j + 1;
    }
    assert files[..|files|] == files;
  }

  /** The loops of `loadMedia` that build `filesToLoad`. */
  method CollectItems(m: Manifest, tab: string) returns (items: seq<MediaItem>)
    ensures items == Build(m, tab)
  {
    items := [];
    if tab == "all" {
      var i := 0;
      while i < |m.keys|
        invariant 0 <= i <= |m.keys|
        invariant items == KeysItems(m, m.keys[..i])
      {
        var c := m.keys[i];
        assert m.keys[..i + 1][..i] == m.keys[..i];
        if c in m.lists {
          items := PushTagged(items, c, m.lists[c]);
        }
        i := i + 1;
      }
      assert m.keys[..|m.keys|] == m.keys;
    } else if tab in m.lists {
      items := PushTagged(items, tab, m.lists[tab]);
    }
  }

  /** How a grid cell previews its file. */
  datatype Preview =
    | Picture(src: string, alt: string)
    | Clip(src: string, muted: bool, loop: bool)
    | Unsupported(note: string)

  /** A grid cell: its `data-full-path`, its `data-media-type` and its preview. */
  datatype Tile = Tile(fullPath: string, mediaType: MediaType, preview: Preview)

  /** The gallery container: the "no content" text or a grid of cells. */
  datatype Container = Placeholder(text: string) | Grid(tiles: seq<Tile>)

  function TileFor(item: MediaItem): Tile {
    var path := FullPath(item.category, item.fileName);
    var kind := Classify(item.fileName);
    var preview :=
      match kind
      case Image => Picture(path, item.category + " image")
      case Video => Clip(path, true, true)
      case Unknown => Unsupported("Unsupported: " + item.fileName);
    Tile(path, kind, preview)
  }

  function Tiles(items: seq<MediaItem>): seq<Tile> {
    seq(|items|, k requires 0 <= k < |items| => TileFor(items[k]))
  }

  function NoContentText(tab: string): string {
    "No content yet for " + (if tab == "all" then "any category" else tab) + "."
  }

  /** What the container shows after `loadMedia(tab)`. */
  function View(m: Manifest, tab: string): Container {
    var items := Build(m, tab);
    if items == [] then Placeholder(NoContentText(tab)) else Grid(Tiles(items))
  }

  /** The grid is in one-to-one order correspondence with the list: cell k shows
      item k, with that item's path and type; an empty list shows the text instead. */
  lemma ViewMatchesList(m: Manifest, tab: string)
    ensures View(m, tab).Placeholder? <==> Build(m, tab) == []
    ensures View(m, tab).Placeholder? ==> View(m, tab).text == NoContentText(tab)
    ensures View(m, tab).Grid? ==> |View(m, tab).tiles| == |Build(m, tab)|
    ensures View(m, tab).Grid? ==> forall k :: 0 <= k < |Build(m, tab)| ==>
      var item, t := Build(m, tab)[k], View(m, tab).tiles[k];
      t.fullPath == FullPath(item.category, item.fileName) && t.mediaType == Classify(item.fileName)
  {
  }

  /** Each cell's preview follows its type: a picture or a muted looping clip of
      the file's path, or an "Unsupported" label naming the file. */
  lemma TilePreview(item: MediaItem)
    ensures TileFor(item).preview.Picture? <==> Classify(item.fileName) == Image
    ensures TileFor(item).preview.Clip? <==> Classify(item.fileName) == Video
    ensures TileFor(item).preview.Unsupported? <==> Classify(item.fileName) == Unknown
    ensures TileFor(item).preview.Picture? ==>
      TileFor(item).preview == Picture("./media/" + item.category + "/" + item.fileName, item.category + " image")
    ensures TileFor(item).preview.Clip? ==>
      TileFor(item).preview == Clip("./media/" + item.category + "/" + item.fileName, true, true)
    ensures TileFor(item).preview.Unsupported? ==>
      TileFor(item).preview.note == "Unsupported: " + item.fileName
  {
  }

  /** A manifest with a filled, an empty and a video category. */
  lemma ScenarioThreeCategories()
    ensures
      var m := Manifest(["wins", "losses", "general"],
                        map["wins" := ["a.png"], "losses" := [], "general" := ["b.mp4"]]);
      && View(m, "general") == Grid([Tile("./media/general/b.mp4", Video, Clip("./media/general/b.mp4", true, true))])
      && View(m, "losses") == Placeholder("No content yet for losses.")
      && Build(m, "all") == [MediaItem("wins", "a.png"), MediaItem("general", "b.mp4")]
  {
    ClassifyExamples();
    var m := Manifest(["wins", "losses", "general"],
                      map["wins" := ["a.png"], "losses" := [], "general" := ["b.mp4"]]);
    assert m.keys[..2][..1] == ["wins"];
    assert m.keys[..2] == ["wins", "losses"];
    assert m.keys[..1][..0] == [];
    assert KeysItems(m, ["wins"]) == [MediaItem("wins", "a.png")];
    assert KeysItems(m, ["wins", "losses"]) == [MediaItem("wins", "a.png")];
    var item := MediaItem("general", "b.mp4");
    assert Build(m, "general") == [item];
    assert FullPath("general", "b.mp4") == "./media/general/b.mp4";
    assert TileFor(item) == Tile("./media/general/b.mp4", Video, Clip("./media/general/b.mp4", true, true));
    assert Tiles([item]) == [TileFor(item)];
  }

  /** The content the viewer's `.modal-content` holds. */
  datatype ModalContent =
    | Blank
    | Still(src: string)
    | Movie(src: string, controls: bool, autoplay: bool, loop: bool)

  /** What `openFullscreen(src, type)` puts in the viewer. */
  function ModalContentFor(src: string, kind: MediaType): ModalContent {
    match kind
    case Image => Still(src)
    case Video => Movie(src, true, true, true)
    case Unknown => Blank
  }

  /** Opening shows an image for an image, a video with controls, autoplay and
      loop for a video, and nothing for an unknown type. */
  lemma ModalContentKinds(src: string, kind: MediaType)
    ensures ModalContentFor(src, kind).Still? <==> kind == Image
    ensures ModalContentFor(src, kind).Movie? <==> kind == Video
    ensures ModalContentFor(src, kind) == Blank <==> kind == Unknown
    ensures ModalContentFor(src, kind) != Blank ==> ModalContentFor(src, kind).src == src
    ensures ModalContentFor(src, kind).Movie? ==>
      var c := ModalContentFor(src, kind); c.controls && c.autoplay && c.loop
  {
  }

  /** The fullscreen viewer: the modal's `active` class, the body's `overflow`
      style and the modal's content. */
  class Viewer {
    var active: bool
    var overflow: string
    var content: ModalContent

    /** The modal is shown exactly while scrolling is locked, and holds nothing
        while hidden. */
    ghost predicate Valid()
      reads this
    {
      && (active <==> overflow == "hidden")
      && (!active ==> content == Blank)
    }

    /** The modal as the page's markup starts it: hidden, scrolling enabled, empty. */
    constructor ()
      ensures Valid()
      ensures !active && overflow == "" && content == Blank
    {
      active, overflow, content := false, "", Blank;
    }

    /** `openFullscreen(src, type)`: whatever was shown before is replaced. */
    method Open(src: string, kind: MediaType)
      modifies this
      ensures Valid()
      ensures active && overflow == "hidden"
      ensures content == ModalContentFor(src, kind)
    {
      content := Blank;
      content := ModalContentFor(src, kind);
      active := true;
      overflow := "hidden";
    }

    /** `closeFullscreen()`. */
    method Close()
      modifies this
      ensures Valid()
      ensures !active && overflow == "" && content == Blank
    {
      active := false;
      content := Blank;
      overflow := "";
    }
  }

  /** The page: the loaded manifest and what the gallery container shows. */
  class GalleryPage {
    const manifest: Manifest
    var container: Container

    /** The page once the manifest has been fetched and parsed: it shows the
        'all' tab straight away. */
    constructor (m: Manifest)
      ensures manifest == m && container == View(m, "all")
    {
      manifest := m;
      container := Grid([]);
      new;
      LoadMedia("all");
    }

    /** `loadMedia(tab)`: clears the container, then shows the "no content" text
        or appends one cell per item, in order. */
    method LoadMedia(tab: string)
      modifies this
      ensures container == View(manifest, tab)
    {
      container := Grid([]);
      var items := CollectItems(manifest, tab);
      if |items| == 0 {
        container := Placeholder(NoContentText(tab));
        return;
      }
      var k := 0;
      while k < |items|
        invariant 0 <= k <= |items|
        invariant container == Grid(Tiles(items[..k]))
      {
        container := Grid(container.tiles + [TileFor(items[k])]);
        k := k + 1;
      }
      assert items[..|items|] == items;
    }

    /** A click on cell k opens the viewer on that cell's path and type. */
    method ClickTile(k: nat, viewer: Viewer)
      requires container.Grid? && k < |container.tiles|
      modifies viewer
      ensures viewer.Valid() && viewer.active
      ensures viewer.content == ModalContentFor(container.tiles[k].fullPath, container.tiles[k].mediaType)
    {
      var t := container.tiles[k];
      viewer.Open(t.fullPath, t.mediaType);
    }
  }
}
