# Gallery manifest and viewer, modelled in Dafny

The gallery has two parts that share one file, `media_manifest.json`:

- a maintenance script (`update_gallery.py`) that walks the fixed category folders
  under `media/`, renumbers the files of each folder `1.ext`, `2.ext`, … in sorted
  order and writes the manifest, a JSON object from category to its list of file
  names;
- a browser script (`script.js`) that reads the manifest, builds the list of items
  for the selected tab (`all` or one category), classifies each file as image, video
  or unknown from its extension, fills the grid with one cell per item and opens a
  fullscreen viewer when a cell is clicked.

The project is five modules:

- `Text` (`text.dfy`): ASCII lower-casing, the text after the last dot
  (`split('.').pop()`), and decimal numerals (`str(n)`), with their properties.
- `Order` (`order.dfy`): Python's ordering of strings, and the sort of a list of
  names. The sort is written as an insertion sort and proved to be the unique sorted
  arrangement of its input, so any correct sort gives the same list.
- `Gallery` (`gallery.dfy`): the browser side. It holds the classifier, the path of a
  cell and the list a tab shows (`Build`). The loops of `loadMedia` are the methods
  `PushTagged`, `CollectItems` and `GalleryPage.LoadMedia`, each proved against
  `Build` and `View`. The fullscreen viewer is the class `Viewer`.
- `UpdateGallery` (`update_gallery.dfy`): the script. A folder is a map from entry
  name to entry, and `os.listdir` is an input listing. Whether each `os.rename`
  succeeds is an input oracle. The loops are the methods `RenumberFiles` and
  `UpdateGalleryManifest`, each proved against the functions `AfterSteps` and
  `EntriesAfter` and the lemmas about them.
- `Pipeline` (`pipeline.dfy`): what happens when the page reads the manifest the
  script wrote. Renaming keeps the media type of a file with an extension. A file
  without one becomes unshowable. Hidden files never reach the page. A missing folder
  shows the "no content" text.

The sequential renames can collide. Take a folder holding `1.png`, `10.png` and
`2.png`. Sorting puts `10.png` second, so its new name is `2.png`, and on POSIX that
rename replaces the existing `2.png` before its own turn. `UpdateGallery.CollisionOverwrites`
states this in general and `UpdateGallery.CollisionExample` on that folder. `UpdateGallery.NoCollisionKeepsTrack`
gives the condition under which every manifest entry names a surviving file with
the right contents.

`script.js` has no shuffle, no video-only tab and no previous/next navigation, so
the model has none.

## Model

| member | source | states |
|---|---|---|
| Text.ToLowerIdempotent | script.js:62 | lower-casing leaves no capitals and lower-casing twice changes nothing |
| Text.AfterLastDotSpec | script.js:62 | the text after the last dot has no dot, is a suffix of the name, and is the whole name or follows a dot |
| Text.DotFreeSuffixUnique | script.js:62 | that description determines the suffix uniquely |
| Text.AfterLastDotAppend | script.js:62 | for `stem.ext` with a dot-free `ext` the suffix is `ext`, whatever dots the stem holds |
| Text.AfterLastDotLower | script.js:62 | taking the suffix commutes with lower-casing |
| Text.DecimalString | update_gallery.py:43 | `str(n)` is a non-empty string of decimal digits |
| Text.DecimalRoundTrip | update_gallery.py:43 | reading back the numeral of `n` gives `n` |
| Text.DecimalStringInjective | update_gallery.py:43 | different numbers have different numerals |
| Order.NotAfterTotal | update_gallery.py:37 | any two names are ordered one way or the other |
| Order.NotAfterAntisymmetric | update_gallery.py:37 | two names each not after the other are equal |
| Order.NotAfterTransitive | update_gallery.py:37 | the order on names is transitive |
| Order.SortNames | update_gallery.py:37 | sorting keeps the same names with the same multiplicities |
| Order.SortNamesSorted | update_gallery.py:37 | the sorted list is in non-decreasing order |
| Order.SortedUnique | update_gallery.py:37 | two sorted lists with the same elements are equal, so the sort's result is determined |
| Gallery.Classify | script.js:62-64 | image exactly when the lower-cased extension is one of png, jpg, jpeg, gif, webp; video exactly when it is one of mp4, webm, ogg; unknown otherwise |
| Gallery.ExtensionOfDotless | script.js:62 | the extension never holds a dot, and a dot-less name's extension is the whole name lower-cased |
| Gallery.ExtensionAfterDot | script.js:62 | the extension of `stem.ext` is `ext` lower-cased |
| Gallery.ClassifyIgnoresCase | script.js:62-64 | names equal up to case get the same type |
| Gallery.ClassifyExamples | script.js:62-64 | `b.mp4` and `Clip.WebM` are videos, `a.PNG` and `photo.backup.jpeg` images, `archive.png.zip` unknown |
| Gallery.ClassifyDotlessExamples | script.js:62-64 | a dot-less name is classified by the whole name: `png` is an image, `MP4` a video, `README` unknown |
| Gallery.ClassifyDigitLed | script.js:62-64 | a dot-less name starting with a digit, such as a bare number, is neither an image nor a video |
| Gallery.FirstSlashAfterPrefix | script.js:61 | in a cell's path the first slash after `./media/` ends the category |
| Gallery.FullPathInjective | script.js:61 | for slash-free categories, the path determines both the category and the file name |
| Gallery.BuildForCategory | script.js:45-49 | a tab naming a present category lists that category's files verbatim, in order, each tagged with it |
| Gallery.BuildForAbsent | script.js:45-55 | a tab naming an absent key lists nothing and shows "No content yet for <tab>." |
| Gallery.KeysItemsLength | script.js:33-42 | the items of the listed keys are as many as their lists' total length |
| Gallery.BuildAllLength | script.js:33-42 | the 'all' tab holds as many items as all lists together |
| Gallery.KeysItemsMembers | script.js:33-42 | an item is among the listed keys' items exactly when its category is a listed key and its file is in that key's list |
| Gallery.BuildAllMembers | script.js:33-42 | for a well-formed manifest, the 'all' tab shows a category's file exactly when the manifest lists it there |
| Gallery.PushTagged | script.js:38-48 | the `forEach` loop appends exactly the tagged files, in order |
| Gallery.CollectItems | script.js:31-50 | the loops of `loadMedia` build exactly `Build(m, tab)`: concatenation in key order for 'all', the category's list otherwise |
| Gallery.ViewMatchesList | script.js:52-93 | the text is shown exactly when the list is empty; otherwise cell k shows item k with its path and type |
| Gallery.TilePreview | script.js:61-88 | a cell previews a picture with alt "<category> image", a muted looping clip, or "Unsupported: <name>", exactly as its type says |
| Gallery.ScenarioThreeCategories | script.js:28-95 | a three-category manifest: a video tab, an empty tab's text, and the 'all' list skipping the empty category |
| Gallery.ModalContentKinds | script.js:98-112 | opening puts in an image for an image, a video with controls, autoplay and loop for a video, nothing for unknown |
| Gallery.Viewer.constructor | script.js:4-5 | the viewer whose elements are looked up here starts hidden, scrolling enabled, empty: the state `closeFullscreen` also leaves |
| Gallery.Viewer.Open | script.js:98-116 | opening replaces the content by the one for the type, marks the modal active and locks scrolling |
| Gallery.Viewer.Close | script.js:119-123 | closing removes `active`, empties the content and restores scrolling |
| Gallery.GalleryPage.constructor | script.js:17-20 | the page holds the parsed manifest and then shows the 'all' tab, as `loadMedia('all')` right after parsing does |
| Gallery.GalleryPage.LoadMedia | script.js:28-95 | after `loadMedia(tab)` the container shows exactly `View(manifest, tab)`: the text for an empty list, else one cell per item in order |
| Gallery.GalleryPage.ClickTile | script.js:91 | clicking cell k opens the viewer on that cell's path and type |
| UpdateGallery.Eligibles | update_gallery.py:36 | the filtered listing holds exactly the listed regular files whose name does not start with a dot |
| UpdateGallery.SplitExtSpec | update_gallery.py:42 | `os.path.splitext`: the parts rejoin to the name; a non-empty extension is a dot followed by dot-free text and follows a non-dot; an empty one means every dot has only dots before it |
| UpdateGallery.RenumberFiles | update_gallery.py:39-66 | the file loop yields the folder `AfterSteps` and the list `EntriesAfter` |
| UpdateGallery.SortedFilesSpec | update_gallery.py:36-37 | the numbered files are sorted, distinct, and exactly the folder's eligible names |
| UpdateGallery.SortedFilesIgnoreListingOrder | update_gallery.py:36-37 | the numbering does not depend on the order `os.listdir` returns |
| UpdateGallery.NewNameOfDotted | update_gallery.py:42-43 | `stem.ext` with a visible stem is renamed to the number, a dot and `ext` lower-cased |
| UpdateGallery.NewNameOfDotless | update_gallery.py:42-43 | a name without a dot has no extension and is renamed to the bare number |
| UpdateGallery.VisibleDottedExtension | update_gallery.py:42 | a visible name with a dot splits into a stem, a dot and a dot-free extension, and the split extension is not empty |
| UpdateGallery.NewNameOfExtension | update_gallery.py:42-43 | a visible name with a dot is renamed to the number, a dot and its dot-free extension lower-cased |
| UpdateGallery.NewNamesDistinct | update_gallery.py:43 | different positions get different new names |
| UpdateGallery.NewNameVisible | update_gallery.py:43 | a new name never starts with a dot |
| UpdateGallery.PendingFilesPresent | update_gallery.py:40-63 | each file is still in the folder when its turn comes |
| UpdateGallery.EntriesFollowPlan | update_gallery.py:47-66 | after n turns the list has n entries, the k-th being the new name, or the old name when that differs and the rename failed or its target is a subfolder |
| UpdateGallery.EntriesAsPlanned | update_gallery.py:47-66 | the list after n turns is the sequence of the n planned entries, each decided by its own file only |
| UpdateGallery.FolderEntriesSpec | update_gallery.py:47-66 | one entry per eligible file in sorted order: the new name when it equals the old one or the rename succeeded, the original name when the rename failed or a subfolder holds the new name |
| UpdateGallery.FolderEntriesCount | update_gallery.py:36-66 | a category's list is as long as its folder has eligible files |
| UpdateGallery.FolderEntriesVisible | update_gallery.py:36-43 | no manifest entry starts with a dot |
| UpdateGallery.RenameOntoSubfolderFails | update_gallery.py:49-58 | renaming a file onto a subfolder changes nothing and the old name goes into the list, as POSIX `rename` refuses it |
| UpdateGallery.SubfoldersKept | update_gallery.py:40-58 | the turns move regular files only, so the subfolders after any number of turns are those the folder started with |
| UpdateGallery.RenameStepFrame | update_gallery.py:51 | a rename leaves every entry other than its source and target alone |
| UpdateGallery.RenameStepEntry | update_gallery.py:51-66 | after a turn, the file is found under the name the turn recorded |
| UpdateGallery.NoCollisionSteps | update_gallery.py:40-66 | without collisions, done files sit under their recorded names and pending files under their own, with their contents |
| UpdateGallery.NoCollisionKeepsTrack | update_gallery.py:40-68 | without collisions, every manifest entry names a file of the folder afterwards, holding the contents of the file it came from |
| UpdateGallery.CollisionOverwrites | update_gallery.py:51 | a successful rename onto a later file's name replaces that file before its turn |
| UpdateGallery.AfterStepsFrame | update_gallery.py:40-66 | an entry that is neither a numbered file nor a new name is untouched |
| UpdateGallery.HiddenEntriesUntouched | update_gallery.py:36-66 | hidden entries keep their name and contents |
| UpdateGallery.ExampleSortNames | update_gallery.py:37 | `2.png`, `10.png`, `1.png` sort as `1.png`, `10.png`, `2.png` |
| UpdateGallery.ExampleNewNames | update_gallery.py:43 | those files get `1.png`, `2.png`, `3.png` |
| UpdateGallery.CollisionExample | update_gallery.py:36-68 | for that folder with every rename succeeding, the list is `1.png`, `2.png`, `3.png`, but `2.png` no longer exists and the original `2.png`'s contents are gone |
| UpdateGallery.CategoriesDistinct | update_gallery.py:9-17 | the categories are distinct |
| UpdateGallery.UpdateCategories | update_gallery.py:23-68 | the category loop gives every listed category its folder's list, turns each existing folder into its renamed form, creates missing folders, and leaves other folders alone |
| UpdateGallery.ProcessedStep | update_gallery.py:23-68 | handling one more category adds it to the manifest with its list and to the tree with its renamed or new folder, and keeps the earlier categories and the untouched folders as they were |
| UpdateGallery.UpdateGalleryManifest | update_gallery.py:19-68 | the manifest's keys are exactly the categories, each with its folder's list, and a missing folder is created empty and gets an empty list |
| Pipeline.RenamingKeepsExtension | update_gallery.py:42-43 | a visible name with a dot keeps its extension, up to case, and so its media type on the page |
| Pipeline.DotlessRenamedUnknown | update_gallery.py:42-43 | a name without a dot becomes a number that the page classifies as unknown |
| Pipeline.DotlessImageLost | update_gallery.py:42-43 | a file called `png` is an image before the renaming and unknown after it |
| Pipeline.ScriptManifestWellFormed | update_gallery.py:23-74 | the written manifest has each category once, each with a list |
| Pipeline.ScriptManifestCategoryTab | update_gallery.py:68 | a category tab shows the script's list for it, in order |
| Pipeline.MissingFolderPlaceholder | update_gallery.py:26-30 | a category whose folder did not exist shows "No content yet for <category>." |
| Pipeline.ScriptManifestAllTab | update_gallery.py:36-68 | the 'all' tab shows exactly the category and file pairs of the script's lists, and no hidden name |

## Left out

- `fetchManifest` (script.js:11-25): the network fetch, the `response.ok` check and
  the error banner are asynchronous I/O. `GalleryPage` starts from a parsed manifest.
- JSON parsing: the manifest is a list of keys plus a map to lists of names. Values
  that are not arrays or are falsy, and keys inherited from `Object.prototype`, are
  not modelled.
- `Object.keys` order: this puts integer-like keys first. The model takes the keys
  in the order given, which for the script's manifest is the order of `CATEGORIES`.
- DOM plumbing is not modelled: element creation, `innerHTML`, the tab buttons'
  `active` class, and the event listeners on the close button and modal background.
  What a cell shows is the `Tile` value, and the viewer is the abstract state of
  `Viewer`.
- Hover play and pause of video previews (script.js:78-79): media-element behaviour.
- Console messages and `print` calls in both files.
- Gallery.Viewer.constructor: `script.js` never sets the modal's starting state
  (not `active`, `overflow` unset, no content). The page's markup does. The model
  takes that state to be the closed one that `closeFullscreen` produces.
- Gallery.GalleryPage.constructor: the grid's contents before the manifest arrives
  come from the page's markup and are not modelled. The constructor starts from the
  parsed manifest and runs `loadMedia('all')`, as script.js:17-20 does.
- File system calls are not performed: `os.path.exists`, `os.makedirs`,
  `os.listdir`, `os.path.isfile`, `os.rename`. Folders are maps, the listing is an
  input, the rename outcome is the oracle `ok(i)`, and a rename that succeeds has
  POSIX semantics: it replaces an existing file or other non-folder entry under the
  target, and it always fails when a subfolder holds the target name. A folder
  path that exists but is not a directory is not modelled.
- `os.path.isfile` is modelled as "the entry is a regular file". Symbolic links are
  not modelled.
- Writing `media_manifest.json` (update_gallery.py:71-78) is not modelled.
  `Pipeline.WrittenManifest` reads the returned map with the keys in `CATEGORIES`
  order.
- The `shutil` import is unused by the code.
- Text.ToLower: lower-cases ASCII letters only; JavaScript's `toLowerCase` and
  Python's `lower` also map other Unicode capitals.
- UpdateGallery.SplitExtSpec: applies to names without a slash. `os.listdir` never
  returns one, so the directory part of `os.path.splitext` is not modelled.
- UpdateGallery.UpdateGalleryManifest: the oracle is a function of the category and
  file index rather than a sequence of booleans, so every turn has an outcome.
