# Photography portfolio gallery: indexer and per-item state machine, in Dafny

This project models two pieces of a React photography portfolio site and proves
properties of them.

- **The local gallery indexer** (`src/services/local-gallery.ts`, module
  `LocalGallery`). The bundler's two `import.meta.glob` maps are inputs: sequences
  of `(path, src)` pairs in enumeration order. From every path the indexer derives:
  - a category: the lower-cased name of the folder holding the file;
  - a file name and a base name (the file name without its extension);
  - an alternative text: the base name with runs of `-`/`_` turned into spaces, then trimmed.

  Each video's poster is the source of the image with the same lower-cased
  `category/baseName` key. When several images share a key, the last one wins.
  Images and then videos are sorted stably by file name and pushed, in that order,
  into one bucket per category. The lookup `getLocalGalleryImages` lower-cases its
  argument. `"all"` yields every bucket in key order, a known category yields its
  bucket, and anything else yields `[]`. The `localeCompare(..., { numeric: true })`
  comparator is a parameter `le` ("sorts no later than"). The ordering lemmas require
  it to be a total preorder.
- **The `MasonryGallery` state machine** (`src/components/MasonryGallery.tsx`,
  module `MasonryGallery`). Its state is:
  - the hovered index;
  - the loaded and visible index sets;
  - the `timerRef` ref;
  - the browser's armed timers;
  - whether the component is mounted.

  `Step` is a pure specification of each event: hover, leave, the dismissal timer
  firing, load, an IntersectionObserver entry, click and unmount. The class `Gallery`
  has the component's fields and one method per handler. Each method is proved to
  move the fields exactly as `Step` moves the state. The display predicates are
  functions of the state: grayscale, caption, opacity, the `show` class and the
  video poster.
- **The JavaScript string built-ins** the indexer uses (module `Text`):
  - `toLowerCase`, on ASCII letters only;
  - `split` on one character;
  - `trim`, with the WhiteSpace and LineTerminator sets of ECMA-262.

  `Options` holds the `Option` datatype that stands for `undefined`/`null`.

**A poster image stays listed.** The code never removes an image that serves
as a video's poster. A folder `selected` holding `a.jpg`, `a.mp4` and `b.png`
therefore yields three items for the lookup of `selected`: the video `a.mp4`
with `a.jpg`'s source as its poster, and both images.
`LocalGallery.SelectedFolderItems` proves this.

## Model

| member | source | states |
|---|---|---|
| `LocalGallery.StripExtension` | src/services/local-gallery.ts:29 | Removes exactly a trailing `.ext` whose `ext` is non-empty and holds no `/` or `.`. The result is a prefix of the name ending where that dot stood. The name comes back unchanged if and only if it has no such suffix. |
| `LocalGallery.ExtensionDotUnique` | src/services/local-gallery.ts:29 | At most one dot in a name starts such a suffix, so the removal is determined. |
| `LocalGallery.CollapseSeparators` | src/services/local-gallery.ts:21 | After `.replace(/[-_]+/g, " ")` no `-` or `_` is left. |
| `LocalGallery.CollapseRun` | src/services/local-gallery.ts:21 | A non-empty run made only of `-`/`_` becomes exactly one space. |
| `LocalGallery.CollapseWithoutSeparators` | src/services/local-gallery.ts:21 | Text without `-`/`_` is left unchanged. |
| `LocalGallery.CollapseAppend` | src/services/local-gallery.ts:21 | Wherever a cut does not split a run of separators, the replacement works piece by piece. Together with the two lemmas above, only maximal runs are replaced. |
| `LocalGallery.LeadingSeparatorsRun` | src/services/local-gallery.ts:21 | The run of separators counted at the start of a string is made only of `-`/`_`, and the character after it is neither. |
| `LocalGallery.LeadingSeparatorsUnique` | src/services/local-gallery.ts:21 | The run a string starts with is determined by its two properties: everything before the cut is a separator and what follows the cut is not. |
| `LocalGallery.NormalizeAlt` | src/services/local-gallery.ts:18-22 | The alternative text contains no `-` or `_` and neither starts nor ends with whitespace. |
| `Text.TrimInfix` | src/services/local-gallery.ts:22 | `trim` removes whitespace and nothing else: the input is whitespace, then the result, then whitespace. |
| `Text.TrimEnds` | src/services/local-gallery.ts:22 | The result of `trim` neither starts nor ends with whitespace. |
| `Text.LeadingWhitespaceRun` | src/services/local-gallery.ts:22 | The leading whitespace counted is whitespace only, and the character after it is not whitespace. |
| `Text.TrailingWhitespaceRun` | src/services/local-gallery.ts:22 | The trailing whitespace counted is whitespace only, and the character before it is not whitespace. |
| `Text.Trim` | src/services/local-gallery.ts:22 | `trim` never lengthens its input. With `Text.TrimInfix`, `Text.TrimEnds` and `Text.TrimUntouched` it removes exactly the leading and trailing whitespace. |
| `Text.TrimUntouched` | src/services/local-gallery.ts:22 | Text that neither starts nor ends with whitespace comes back from `trim` unchanged. |
| `Text.JoinSplit` | src/services/local-gallery.ts:25 | `split("/")` loses nothing: joining the parts with `/` gives the path back. |
| `Text.SplitPiecesFree` | src/services/local-gallery.ts:25 | No part produced by `split("/")` contains a `/`. |
| `Text.SplitAppend` | src/services/local-gallery.ts:25 | Splitting at one more `/` puts the parts of both sides next to each other. |
| `Text.Split` | src/services/local-gallery.ts:25 | `split("/")` always yields at least one part, so `pop()` and `parts[parts.length - 2]` are well defined. `Text.JoinSplit` and `Text.SplitPiecesFree` determine the parts. |
| `Text.LowerIsLower` | src/services/local-gallery.ts:26 | `toLowerCase` yields lower-case text and is idempotent. |
| `Text.Lower` | src/services/local-gallery.ts:26 | `toLowerCase` keeps the length and maps every character on its own, only the ASCII capitals changing. |
| `LocalGallery.CategoryFromPath` | src/services/local-gallery.ts:24-27 | The category is always lower-case. A path without `/` has category `""`. |
| `LocalGallery.CategoryOfFileInDirectory` | src/services/local-gallery.ts:24-27 | The category of `root/dir/file` is `dir` lower-cased, whatever the root. |
| `LocalGallery.CategoryOfFileInFolder` | src/services/local-gallery.ts:24-27 | The category of `dir/file`, a path with one `/`, is `dir` lower-cased. |
| `LocalGallery.FileName` | src/services/local-gallery.ts:33 | The file name taken from `path.split("/").pop()`, or the fallback, is either the fallback or a non-empty name without `/`. |
| `LocalGallery.FileNameOfPath` | src/services/local-gallery.ts:33 | The file name is the part after the last `/`, or the fallback when that part is empty. |
| `LocalGallery.ImageEntry` | src/services/local-gallery.ts:32-45 | An image entry is an image that keeps its own `src` and path. Its category is its path's category, and it is lower-case. Its file name is `"image"` or a non-empty name without `/`. |
| `LocalGallery.ImageEntries` | src/services/local-gallery.ts:32-45 | There is one image entry per image. |
| `LocalGallery.ImageByKey` | src/services/local-gallery.ts:47-52 | The last image enumerated always has its own `src` stored under its key. |
| `LocalGallery.ImageEntriesComeFirst` | src/services/local-gallery.ts:32-45 | There is one entry per image and per video. The first are the images, each keeping its own `src`, its derived alt text and its path's category. |
| `LocalGallery.ImageByKeyLastWins` | src/services/local-gallery.ts:47-52 | Of several images with the same lower-cased `category/baseName` key, the one enumerated last is stored under it. |
| `LocalGallery.ImageByKeyMissing` | src/services/local-gallery.ts:47-52 | A key that no image has is absent from `imageByKey`. |
| `LocalGallery.ImageByKeyKeys` | src/services/local-gallery.ts:47-52 | Every key in `imageByKey` belongs to some image. |
| `LocalGallery.VideoPosterMatched` | src/services/local-gallery.ts:54-71 | A video whose key matches an image gets that image's `src` as its poster (the last such image). `videoSrc` is the video's own source and the item is a video. |
| `LocalGallery.VideoPosterUnmatched` | src/services/local-gallery.ts:54-71 | A video that matches no image gets the poster `""`. |
| `LocalGallery.VideoEntry` | src/services/local-gallery.ts:54-71 | A video entry is a video whose `videoSrc` is its own source. Its poster is the `src` stored under its lower-cased `category/baseName` key, or `""` when no image has that key. |
| `LocalGallery.VideoEntries` | src/services/local-gallery.ts:54-71 | There is one video entry per video. |
| `LocalGallery.InsertByFilename` | src/services/local-gallery.ts:78 | One insertion step of the stable sort adds exactly the inserted entry. |
| `LocalGallery.SortByFilename` | src/services/local-gallery.ts:78 | The sort is a permutation of the entries. |
| `LocalGallery.InsertSorted` | src/services/local-gallery.ts:78 | Inserting into a sorted list keeps it sorted under a total preorder. |
| `LocalGallery.SortSorted` | src/services/local-gallery.ts:78 | Sorted file names are non-decreasing under the comparator. |
| `LocalGallery.InsertKeepsTies` | src/services/local-gallery.ts:78 | An insertion step keeps the relative order of entries whose names tie. |
| `LocalGallery.SortKeepsTies` | src/services/local-gallery.ts:78 | The sort is stable: entries whose names tie keep their enumeration order. |
| `LocalGallery.Push` | src/services/local-gallery.ts:80-81 | One `forEach` step keeps the index well formed (every key listed once, no bucket empty) and lists the category's key last when it is new. |
| `LocalGallery.PushBucket` | src/services/local-gallery.ts:80-81 | The step appends the item to its category's bucket, which it creates on first use. Every other key keeps its bucket, or its absence. |
| `LocalGallery.Bucketed` | src/services/local-gallery.ts:77-82 | Bucketing the entries in order gives a well-formed index. |
| `LocalGallery.BucketedContents` | src/services/local-gallery.ts:77-82 | Each bucket holds the items of exactly the entries of its category, in entry order. A category without a bucket has no entries. |
| `LocalGallery.BucketedPartition` | src/services/local-gallery.ts:77-82 | The buckets, flattened, hold every entry's item exactly as often as the entries do. |
| `LocalGallery.BuildItems` | src/services/local-gallery.ts:73-84 | The sort-then-`forEach` loop builds the index `GalleryByCategory` specifies. Each bucket holds its category's items in sorted order. The buckets together are a permutation of all image and video items, with as many items as there are images and videos. |
| `LocalGallery.BucketInOrder` | src/services/local-gallery.ts:77-82 | The `forEach` loop over the sorted entries builds exactly the index `Bucketed` specifies. |
| `LocalGallery.GalleryByCategoryContents` | src/services/local-gallery.ts:73-84 | The same three facts about the specified index: contents by category, permutation and total length. |
| `LocalGallery.CategoryEntriesSorted` | src/services/local-gallery.ts:73-82 | A bucket's entries are sorted by file name and are exactly its category's entries. Entries whose names tie appear images first, then videos, each in enumeration order. |
| `LocalGallery.OfCategoryPermutation` | src/services/local-gallery.ts:77-82 | Reordering the entries changes neither which entries a category receives nor how often. |
| `LocalGallery.GetLocalGalleryImages` | src/services/local-gallery.ts:89-95 | A non-empty result comes either from `"all"` or from an existing bucket of the lower-cased name. |
| `LocalGallery.LookupIgnoresCase` | src/services/local-gallery.ts:90 | The lookup gives the same result for a category and its lower-cased form, so `"SELECTED"` and `"selected"` agree. |
| `LocalGallery.LookupAll` | src/services/local-gallery.ts:91-93 | `"all"`, in any casing, yields every image and video item exactly once. A folder named `all` therefore cannot be looked up on its own. |
| `LocalGallery.LookupCategory` | src/services/local-gallery.ts:94 | Any other name yields exactly the sorted items of that lower-cased category, and `[]` when no folder has that name. |
| `LocalGallery.EntryCategories` | src/services/local-gallery.ts:32-71 | Every image entry and every video entry takes its category from its own path. |
| `LocalGallery.FolderEntries` | src/services/local-gallery.ts:24-71 | The files of one folder all get that folder's lower-cased name as their category. |
| `LocalGallery.FolderLookup` | src/services/local-gallery.ts:54-94 | Looking up a folder's name, in any casing, yields exactly the items of the folder's images and videos, each as often as it occurs, so as many items as the folder has files. A poster image stays listed on its own. |
| `LocalGallery.PlainFileName` | src/services/local-gallery.ts:18-29 | A file `base.ext` whose base has no `-`/`_` and no whitespace at its ends strips to `base`, which is also its alternative text. |
| `LocalGallery.FolderImageEntry` | src/services/local-gallery.ts:32-49 | The image `root/dir/base.ext` gets the category `dir` lower-cased, the alternative text `base` and the poster key of `base`. |
| `LocalGallery.FolderVideoEntry` | src/services/local-gallery.ts:54-71 | The video `root/dir/base.ext` takes as its poster the `src` stored under the key of `base` in its folder, or `""`. |
| `LocalGallery.EntriesItems` | src/services/local-gallery.ts:73 | The items of the entries are those of the images followed by those of the videos. |
| `LocalGallery.SelectedEntries` | src/services/local-gallery.ts:32-73 | The folder `selected` with `a.jpg`, `b.png` and `a.mp4` gives the items `a.jpg`, `b.png`, and the video `a.mp4` whose poster is `a.jpg`. |
| `LocalGallery.SelectedFolderItems` | src/services/local-gallery.ts:32-94 | Looking up `selected` yields exactly three items: the images `a.jpg` and `b.png`, and the video `a.mp4` with `a.jpg`'s source as its poster. The poster image stays listed on its own. |
| `LocalGallery.PushAsWritten` | src/services/local-gallery.ts:80-81 | On the object literal, a step succeeds exactly when the category already has a bucket or is not an inherited property name. It then agrees with `Push`. |
| `LocalGallery.BucketedAsWrittenAgrees` | src/services/local-gallery.ts:75-82 | On the object literal, bucketing succeeds exactly when no category is `constructor` or `__proto__`. It then builds the same index as the map model. |
| `LocalGallery.BucketedAsWritten` | src/services/local-gallery.ts:77-82 | When the `forEach` on the object literal finishes, the index it built is well formed. |
| `LocalGallery.InheritedFolderThrows` | src/services/local-gallery.ts:75-82 | On the object literal, any non-empty folder whose lower-cased name is `constructor` or `__proto__` makes the bucketing throw. |
| `LocalGallery.ConstructorFolderThrows` | src/services/local-gallery.ts:75-82 | One image in a folder `constructor` makes the written bucketing throw. |
| `LocalGallery.LookupConstructorAsWritten` | src/services/local-gallery.ts:94 | As written, `getLocalGalleryImages("constructor")` with no such folder yields a non-array, where the map lookup yields `[]`. |
| `LocalGallery.GetLocalGalleryImagesAsWritten` | src/services/local-gallery.ts:94 | The written lookup yields a non-array exactly when the lower-cased name is not `"all"`, has no bucket, and is an inherited property name. |
| `LocalGallery.LookupAsWrittenAgrees` | src/services/local-gallery.ts:94 | Away from the inherited names, the written lookup and the map lookup agree. |
| `MasonryGallery.Poster` | src/components/MasonryGallery.tsx:111 | A video's poster is its `src` when that is non-empty and `undefined` otherwise. |
| `MasonryGallery.Step` | src/components/MasonryGallery.tsx:32-59 | One event: an unmounted gallery ignores every event, nothing mounts it again, and no event removes an index from the loaded or the visible set. |
| `MasonryGallery.InitialInv` | src/components/MasonryGallery.tsx:25-28 | A freshly mounted gallery keeps the timer discipline, with nothing hovered and nothing armed. |
| `MasonryGallery.StepInv` | src/components/MasonryGallery.tsx:36-59 | Every event keeps the timer discipline: every armed timer is the one `timerRef` holds, handles are fresh and truthy, and nothing is armed once unmounted. |
| `MasonryGallery.RunInv` | src/components/MasonryGallery.tsx:36-59 | The discipline holds after any sequence of events. |
| `MasonryGallery.AtMostOneTimer` | src/components/MasonryGallery.tsx:36-46 | At most one dismissal timer is ever armed, and it is the one `timerRef` holds. |
| `MasonryGallery.HoverArmsOneTimer` | src/components/MasonryGallery.tsx:36-46 | Hovering an item marks it hovered, disarms the previous timer and arms exactly one fresh timer. |
| `MasonryGallery.HoverThenHover` | src/components/MasonryGallery.tsx:36-46 | After hovering `a` then `b`: only `b` is out of grayscale, only `b` may show a caption, and `a`'s timer can no longer fire. |
| `MasonryGallery.HoverThenFire` | src/components/MasonryGallery.tsx:42-44 | When the hover's timer fires, nothing is hovered, grayed or armed. `timerRef` keeps the spent handle. |
| `MasonryGallery.LeaveAndClickChangeNothing` | src/components/MasonryGallery.tsx:48-50 | Leaving or clicking an item changes no state. The hover lasts until the timer fires. |
| `MasonryGallery.UnmountClearsTimer` | src/components/MasonryGallery.tsx:52-59 | Unmounting disarms the pending timer, and no later event changes anything. |
| `MasonryGallery.RunMonotone` | src/components/MasonryGallery.tsx:32-34 | No sequence of events removes an index from the loaded or the visible set. |
| `MasonryGallery.LoadedStaysShown` | src/components/MasonryGallery.tsx:154 | Once an image has loaded, it keeps opacity 1 and the `show` class whatever follows. |
| `MasonryGallery.Opacity` | src/components/MasonryGallery.tsx:154 | The opacity is 0 or 1, and it is 1 exactly when the image has loaded. |
| `MasonryGallery.Shown` | src/components/MasonryGallery.tsx:141 | The `show` class is set exactly when the image has loaded; `MasonryGallery.LoadedStaysShown` proves it stays set. |
| `MasonryGallery.LoadAndIntersectOnlyAdd` | src/components/MasonryGallery.tsx:73-84 | A load only adds its index to the loaded set. An intersecting entry only adds its index to the visible set. A non-intersecting entry changes no state. |
| `MasonryGallery.GrayscaleCases` | src/components/MasonryGallery.tsx:149-151 | An item is grayscale exactly when another item is hovered. With no hover nothing is grayscale, and the hovered item never is. |
| `MasonryGallery.Grayscale` | src/components/MasonryGallery.tsx:127-129 | The grayscale class: some item is hovered and it is not this one. Its properties are in `MasonryGallery.GrayscaleCases`. |
| `MasonryGallery.CaptionAtMostOne` | src/components/MasonryGallery.tsx:163-166 | A caption shows only for an item with both photographer and client, and only while that item is hovered. So at most one caption shows, and never on a grayscale item. |
| `MasonryGallery.CaptionVisible` | src/components/MasonryGallery.tsx:163-166 | The caption is rendered and animated `visible`: the item has a truthy photographer and client and is the hovered one. Its properties are in `MasonryGallery.CaptionAtMostOne`. |
| `MasonryGallery.Command` | src/components/MasonryGallery.tsx:75-83 | An entry asks its item's video to play exactly when the item is a video and intersects, and to pause exactly when it is a video and does not. |
| `MasonryGallery.IntersectingIndicesMembers` | src/components/MasonryGallery.tsx:73-74 | The indices added to the visible set are exactly those of the intersecting entries. |
| `MasonryGallery.RunAppend` | src/components/MasonryGallery.tsx:32-59 | Handling two sequences of events one after the other gives the same state as handling their concatenation. |
| `MasonryGallery.RunIntersect` | src/components/MasonryGallery.tsx:69-86 | Running one callback's entries as events adds exactly their intersecting indices to the visible set and changes nothing else. |
| `MasonryGallery.Gallery.constructor` | src/components/MasonryGallery.tsx:25-28 | A mounted gallery starts with nothing hovered, loaded, visible or armed. |
| `MasonryGallery.Gallery.HandleImageHover` | src/components/MasonryGallery.tsx:36-46 | `handleImageHover` moves the fields as `Step` does for a hover. It leaves exactly the fresh timer armed, held by `timerRef`. |
| `MasonryGallery.Gallery.HandleImageLeave` | src/components/MasonryGallery.tsx:48-50 | `handleImageLeave` changes nothing. |
| `MasonryGallery.Gallery.TimerFired` | src/components/MasonryGallery.tsx:42-44 | The timer callback clears the hover and the armed timer, and leaves `timerRef` unchanged. |
| `MasonryGallery.Gallery.HandleImageLoad` | src/components/MasonryGallery.tsx:32-34 | `handleImageLoad` adds the index to the loaded set and changes nothing else. |
| `MasonryGallery.Gallery.ObserverCallback` | src/components/MasonryGallery.tsx:69-86 | The observer callback's loop adds exactly the intersecting indices to the visible set. It issues, entry by entry, the play/pause command `Command` gives, and its effect equals running the entries as events. |
| `MasonryGallery.Gallery.HandleClick` | src/components/MasonryGallery.tsx:103 | A click reports exactly the item's index to `onImageClick` and changes no state. |
| `MasonryGallery.Gallery.Unmount` | src/components/MasonryGallery.tsx:52-59 | The cleanup disarms the armed timer. |

## Left out

- `import.meta.glob` (src/services/local-gallery.ts:8-16) is resolved by the bundler. Its two path→src maps are inputs, as sequences in enumeration order.
- The ICU numeric collation behind `localeCompare` is a foreign library. It is the parameter `le`, and the ordering and stability lemmas require it to be a total preorder.
- `Array.prototype.sort` is a library routine. It is modelled by the order that any stable sort produces, computed as a stable insertion sort.
- `Object.values` lists integer-like keys (a folder named `2024`) before the other keys. The model flattens the buckets in first-seen key order.
- `toLowerCase` is modelled on ASCII letters only. Non-ASCII case mapping (`É`, `ẞ`, final sigma) is not modelled.
- `LocalGallery.GetLocalGalleryImages` returns the bucket itself. The caller could mutate the returned array, and the shared bucket along with it; that aliasing is not modelled.
- The IntersectionObserver options are not modelled: `rootMargin`, `threshold`, which elements are observed, and the re-creation of the observer when `images.length` changes.
- The `data-index` attribute is not parsed: an observer entry carries its item's index directly. The attribute is always the rendered index, so `parseInt(... || '0')` never falls back to `0`.
- The rejection of `video.play()` is swallowed by the source. The model only records the play or pause command.
- `videoRefs` is not a field. Item `i` has a video element exactly when it is a video, per `MasonryGallery.HasVideo`.
- `imageRefs` only feeds the observer setup.
- The `motion` animation, the JSX markup and the CSS classes other than grayscale and `show` are not modelled, nor is React's batching of state updates.
- `MasonryGallery.Gallery.TimerFired`: time is abstract. The 2800 ms delay is not modelled; the timer fires only as an event.
- Every handler requires a mounted component: React delivers no events to an unmounted one.
- The rest of the site is not part of this model: the header menu toggle, the contact form, page wiring, performance observers, Instagram helpers, hooks, bootstrapping, static markup, the lightbox and the Pexels service. They are DOM plumbing, browser APIs or markup.

## Findings

| source | as written | input that shows it | evidently intended | confidence | as-written member | corrected member |
|---|---|---|---|---|---|---|
| src/services/local-gallery.ts:75-82 | `byCategory` is the object literal `{}`. For the category `constructor` (or `__proto__`), `byCategory[category]` is the inherited `Object` function (or the prototype). So no array is created, and `.push` throws a `TypeError` while the module loads. | an image at `../assets/gallery/constructor/a.jpg` (any casing of the folder name) | every folder gets its own bucket, as in a `Map` or `Object.create(null)` | medium, not executed | `LocalGallery.ConstructorFolderThrows` | `LocalGallery.BuildItems` |
| src/services/local-gallery.ts:94 | The lookup returns the inherited `Object` function for `constructor` when no such folder exists, because that value is truthy and the `[]` fallback is skipped. | `getLocalGalleryImages("constructor")` | `[]` | medium, not executed | `LocalGallery.LookupConstructorAsWritten` | `LocalGallery.LookupCategory` |
