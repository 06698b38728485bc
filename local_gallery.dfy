/**
  The local gallery indexer of `src/services/local-gallery.ts`.

  The two `import.meta.glob` maps are inputs: sequences of `(path, src)`
  pairs in the order the bundler enumerates them. The indexer derives a
  category and a base name from every path, gives every video the image
  with the same lower-cased `category/baseName` key as its poster, sorts
  images and videos together by file name and buckets them by category.
  The `localeCompare(..., { numeric: true })` comparator is a parameter
  `le`, read as "sorts no later than", which the ordering lemmas require to be a total preorder.
*/
module LocalGallery {

  import opened Options
  import opened Text

  /** `LocalGalleryItem`: an image, or a video whose `src` is its poster. */
  datatype Item =
    | Image(src: string, alt: string)
    | Video(src: string, alt: string, videoSrc: string)

  /** What one `import.meta.glob` call yields: `(path, src)` pairs in enumeration order. */
  type SourceMap = seq<(string, string)>

  /** One element of `imageEntries` or `videoEntries`. */
  datatype Entry = Entry(category: string, item: Item, filename: string, baseName: string, path: string)

  // ---------------------------------------------------------------------
  // stripExtension: filename.replace(/\.[^/.]+$/, "")

  /** What may follow the last dot: at least one character, none of them `/` or `.`. */
  predicate IsExtension(e: string)
  {
    |e| > 0 && '/' !in e && '.' !in e
  }

  /** The dot at `k` starts a trailing extension of `s`. */
  predicate StartsExtension(s: string, k: nat)
  {
    k < |s| && s[k] == '.' && IsExtension(s[k + 1..])
  }

  /** The position of the dot that starts a trailing extension, if there is one. */
  function ExtensionDot(s: string): (d: Option<nat>)
    ensures d.Some? ==> StartsExtension(s, d.value)
    ensures d.None? ==> forall k :: 0 <= k < |s| ==> !StartsExtension(s, k)
  {
    if |s| < 2 || s[|s| - 1] == '/' || s[|s| - 1] == '.' then
      assert forall k :: 0 <= k < |s| ==> !StartsExtension(s, k) by {
        forall k | 0 <= k < |s| ensures !StartsExtension(s, k) {
          if k < |s| - 1 {
            assert s[k + 1..][|s| - k - 2] == s[|s| - 1];
          }
        }
      }
      None
    else if s[|s| - 2] == '.' then
      assert s[|s| - 1..] == [s[|s| - 1]];
      Some(|s| - 2)
    else
      var p := s[..|s| - 1];
      var d := ExtensionDot(p);
      assert forall k :: 0 <= k < |p| ==> (StartsExtension(s, k) <==> StartsExtension(p, k)) by {
        forall k | 0 <= k < |p| ensures StartsExtension(s, k) <==> StartsExtension(p, k) {
          assert s[k + 1..] == p[k + 1..] + [s[|s| - 1]];
        }
      }
      d
  }

  /** A string has at most one dot that starts a trailing extension. */
  lemma ExtensionDotUnique(s: string, j: nat, k: nat)
    requires StartsExtension(s, j) && StartsExtension(s, k)
    ensures j == k
  {
  }

  /**
    `stripExtension`: removes the last dot and the non-empty extension
    after it, and leaves a name without such a suffix as it is.
  */
  function StripExtension(filename: string): (r: string)
    ensures r == filename || (|r| < |filename| && r == filename[..|r|] && StartsExtension(filename, |r|))
    ensures r == filename <==> forall k :: 0 <= k < |filename| ==> !StartsExtension(filename, k)
  {
    match ExtensionDot(filename)
    case None => filename
    case Some(d) => filename[..d]
  }

  // ---------------------------------------------------------------------
  // normalizeAlt: stripExtension, then .replace(/[-_]+/g, " "), then .trim()

  predicate IsSeparator(c: char)
  {
    c == '-' || c == '_'
  }

  predicate NoSeparators(s: string)
  {
    forall k :: 0 <= k < |s| ==> !IsSeparator(s[k])
  }

  predicate AllSeparators(s: string)
  {
    forall k :: 0 <= k < |s| ==> IsSeparator(s[k])
  }

  /** How many `-` or `_` characters `s` starts with. */
  function LeadingSeparators(s: string): (n: nat)
    ensures n <= |s|
    ensures s != [] && IsSeparator(s[0]) ==> n > 0
  {
    if s != [] && IsSeparator(s[0]) then 1 + LeadingSeparators(s[1..]) else 0
  }

  /** `LeadingSeparators` counts the whole leading run and stops at the first other character. */
  lemma {:induction false} LeadingSeparatorsRun(s: string)
    ensures AllSeparators(s[..LeadingSeparators(s)])
    ensures LeadingSeparators(s) < |s| ==> !IsSeparator(s[LeadingSeparators(s)])
  {
    if s != [] && IsSeparator(s[0]) {
      var n := LeadingSeparators(s);
      LeadingSeparatorsRun(s[1..]);
      assert s[..n] == [s[0]] + s[1..][..n - 1];
      assert n < |s| ==> s[n] == s[1..][n - 1];
    }
  }

  /** The length of the run of separators a string starts with is the only one with its two properties. */
  lemma {:induction false} LeadingSeparatorsUnique(s: string, m: nat)
    requires m <= |s| && AllSeparators(s[..m])
    requires m < |s| ==> !IsSeparator(s[m])
    ensures LeadingSeparators(s) == m
  {
    if m > 0 {
      assert s[..m][0] == s[0];
      assert s[1..][..m - 1] == s[..m][1..];
      LeadingSeparatorsUnique(s[1..], m - 1);
    }
  }

  /** `.replace(/[-_]+/g, " ")`: every maximal run of `-` and `_` becomes one space. */
  function CollapseSeparators(s: string): (r: string)
    ensures NoSeparators(r)
    decreases |s|
  {
    if s == [] then []
    else if IsSeparator(s[0]) then [' '] + CollapseSeparators(s[LeadingSeparators(s)..])
    else [s[0]] + CollapseSeparators(s[1..])
  }

  /** A string without separators is left as it is. */
  lemma {:induction false} CollapseWithoutSeparators(s: string)
    requires NoSeparators(s)
    ensures CollapseSeparators(s) == s
  {
    if s != [] {
      CollapseWithoutSeparators(s[1..]);
      assert s == [s[0]] + s[1..];
    }
  }

  /** A non-empty run made only of separators becomes a single space. */
  lemma CollapseRun(s: string)
    requires s != [] && AllSeparators(s)
    ensures CollapseSeparators(s) == " "
  {
    LeadingSeparatorsUnique(s, |s|);
    assert s[..|s|] == s;
  }

  /**
    Collapsing works piecewise wherever the cut does not fall inside a run
    of separators; with `CollapseRun` and `CollapseWithoutSeparators` this
    says that exactly the maximal runs are replaced.
  */
  lemma {:induction false} CollapseAppend(a: string, b: string)
    requires !(a != [] && b != [] && IsSeparator(a[|a| - 1]) && IsSeparator(b[0]))
    ensures CollapseSeparators(a + b) == CollapseSeparators(a) + CollapseSeparators(b)
    decreases |a|
  {
    if a == [] {
      assert a + b == b;
    } else {
      var s := a + b;
      assert s[0] == a[0];
      if !IsSeparator(a[0]) {
        assert s[1..] == a[1..] + b;
        CollapseAppend(a[1..], b);
        AppendAssociates([a[0]], CollapseSeparators(a[1..]), CollapseSeparators(b));
      } else {
        var n := LeadingSeparators(a);
        LeadingSeparatorsRun(a);
        assert s[..n] == a[..n];
        if n == |a| {
          LeadingSeparatorsUnique(s, n);
          assert s[n..] == b;
          assert a[n..] == [];
        } else {
          assert s[n] == a[n];
          LeadingSeparatorsUnique(s, n);
          assert s[n..] == a[n..] + b;
          assert a[n..][|a[n..]| - 1] == a[|a| - 1];
          CollapseAppend(a[n..], b);
          AppendAssociates(" ", CollapseSeparators(a[n..]), CollapseSeparators(b));
        }
      }
    }
  }

  lemma AppendAssociates(x: string, y: string, z: string)
    ensures x + (y + z) == (x + y) + z
  {
  }

  /**
    `normalizeAlt`: the alternative text derived from a file name contains
    no `-` or `_` and neither starts nor ends with whitespace.
  */
  function NormalizeAlt(filename: string): (r: string)
    ensures NoSeparators(r)
    ensures r == [] || (!IsWhitespace(r[0]) && !IsWhitespace(r[|r| - 1]))
  {
    var collapsed := CollapseSeparators(StripExtension(filename));
    TrimInfix(collapsed);
    TrimEnds(collapsed);
    Trim(collapsed)
  }

  // ---------------------------------------------------------------------
  // getCategoryFromPath and the file name of a path

  /** `getCategoryFromPath`: the lower-cased second-to-last `/` segment, or `""`. */
  function CategoryFromPath(path: string): (r: string)
    ensures IsLower(r)
    ensures '/' !in path ==> r == ""
  {
    var parts := Split(path, '/');
    assert '/' !in path ==> |parts| == 1 by {
      if '/' !in path { SplitNoSeparator(path, '/'); }
    }
    LowerIsLower(if |parts| >= 2 then parts[|parts| - 2] else "");
    if |parts| >= 2 then Lower(parts[|parts| - 2]) else ""
  }

  /** The category of a file is the lower-cased name of the directory it sits in. */
  lemma CategoryOfFileInDirectory(root: string, dir: string, file: string)
    requires '/' !in dir && '/' !in file
    ensures CategoryFromPath(root + "/" + dir + "/" + file) == Lower(dir)
  {
    SplitAppend(dir, file, '/');
    SplitNoSeparator(dir, '/');
    SplitNoSeparator(file, '/');
    SplitAppend(root, dir + "/" + file, '/');
    assert root + "/" + dir + "/" + file == root + ['/'] + (dir + ['/'] + file);
  }

  /** A path with a single `/` takes its category from the part before it. */
  lemma CategoryOfFileInFolder(dir: string, file: string)
    requires '/' !in dir && '/' !in file
    ensures CategoryFromPath(dir + "/" + file) == Lower(dir)
  {
    SplitAppend(dir, file, '/');
    SplitNoSeparator(dir, '/');
    SplitNoSeparator(file, '/');
  }

  /** `path.split("/").pop() || fallback`. */
  function FileName(path: string, fallback: string): (r: string)
    ensures r == fallback || (r != "" && '/' !in r)
  {
    var parts := Split(path, '/');
    SplitPiecesFree(path, '/');
    if parts[|parts| - 1] != "" then parts[|parts| - 1] else fallback
  }

  /** The file name of a path is what follows its last `/`, unless that is empty. */
  lemma FileNameOfPath(dir: string, file: string, fallback: string)
    requires '/' !in file
    ensures FileName(dir + "/" + file, fallback) == if file == "" then fallback else file
  {
    SplitAppend(dir, file, '/');
    SplitNoSeparator(file, '/');
  }

  // ---------------------------------------------------------------------
  // imageEntries, imageByKey, videoEntries

  /** The lower-cased `category/baseName` key of the poster join. */
  function PosterKey(category: string, baseName: string): string
  {
    Lower(category + "/" + baseName)
  }

  function KeyOf(e: Entry): string
  {
    PosterKey(e.category, e.baseName)
  }

  function ImageEntry(path: string, src: string): (e: Entry)
    ensures e.item.Image? && e.item.src == src && e.path == path
    ensures e.category == CategoryFromPath(path) && IsLower(e.category)
    ensures e.filename == "image" || (e.filename != "" && '/' !in e.filename)
  {
    var filename := FileName(path, "image");
    Entry(CategoryFromPath(path), Image(src, NormalizeAlt(filename)), filename, StripExtension(filename), path)
  }

  function ImageEntries(images: SourceMap): (es: seq<Entry>)
    ensures |es| == |images|
  {
    seq(|images|, k requires 0 <= k < |images| => ImageEntry(images[k].0, images[k].1))
  }

  /** `imageByKey`: `new Map(pairs)`, where a later pair overwrites an earlier one with the same key. */
  function ImageByKey(images: seq<Entry>): (m: map<string, string>)
    ensures images != [] ==> KeyOf(images[|images| - 1]) in m && m[KeyOf(images[|images| - 1])] == images[|images| - 1].item.src
  {
    if images == [] then map[]
    else
      var last := images[|images| - 1];
      ImageByKey(images[..|images| - 1])[KeyOf(last) := last.item.src]
  }

  /** Every key of `imageByKey` is the key of some image. */
  lemma {:induction false} ImageByKeyKeys(images: seq<Entry>, key: string)
    requires key in ImageByKey(images)
    ensures exists k :: 0 <= k < |images| && KeyOf(images[k]) == key
  {
    if KeyOf(images[|images| - 1]) != key {
      ImageByKeyKeys(images[..|images| - 1], key);
    }
  }

  /** A key no image has is missing from `imageByKey`. */
  lemma {:induction false} ImageByKeyMissing(images: seq<Entry>, key: string)
    requires forall k :: 0 <= k < |images| ==> KeyOf(images[k]) != key
    ensures key !in ImageByKey(images)
  {
    if images != [] {
      ImageByKeyMissing(images[..|images| - 1], key);
    }
  }

  /** Of several images with one key, the last one in enumeration order wins. */
  lemma {:induction false} ImageByKeyLastWins(images: seq<Entry>, k: nat)
    requires k < |images|
    requires forall j :: k < j < |images| ==> KeyOf(images[j]) != KeyOf(images[k])
    ensures KeyOf(images[k]) in ImageByKey(images)
    ensures ImageByKey(images)[KeyOf(images[k])] == images[k].item.src
  {
    if k < |images| - 1 {
      ImageByKeyLastWins(images[..|images| - 1], k);
    }
  }

  function VideoEntry(path: string, src: string, imageByKey: map<string, string>): (e: Entry)
    ensures e.item.Video? && e.item.videoSrc == src && e.path == path
    ensures e.category == CategoryFromPath(path) && IsLower(e.category)
    ensures KeyOf(e) in imageByKey ==> e.item.src == imageByKey[KeyOf(e)]
    ensures KeyOf(e) !in imageByKey ==> e.item.src == ""
  {
    var filename := FileName(path, "video");
    var category := CategoryFromPath(path);
    var baseName := StripExtension(filename);
    var key := PosterKey(category, baseName);
    var poster := if key in imageByKey then imageByKey[key] else "";
    Entry(category, Video(poster, NormalizeAlt(filename), src), filename, baseName, path)
  }

  function VideoEntries(videos: SourceMap, imageByKey: map<string, string>): (es: seq<Entry>)
    ensures |es| == |videos|
  {
    seq(|videos|, k requires 0 <= k < |videos| => VideoEntry(videos[k].0, videos[k].1, imageByKey))
  }

  /** `[...imageEntries, ...videoEntries]`. */
  function Entries(images: SourceMap, videos: SourceMap): (es: seq<Entry>)
  {
    var imageEntries := ImageEntries(images);
    imageEntries + VideoEntries(videos, ImageByKey(imageEntries))
  }

  /** Every image becomes an image entry that keeps its own `src`. */
  lemma ImageEntriesComeFirst(images: SourceMap, videos: SourceMap, k: nat)
    requires k < |images|
    ensures |Entries(images, videos)| == |images| + |videos|
    ensures Entries(images, videos)[k].item == Image(images[k].1, NormalizeAlt(Entries(images, videos)[k].filename))
    ensures Entries(images, videos)[k].category == CategoryFromPath(images[k].0)
  {
  }

  /**
    A video whose key matches an image gets the `src` of the last image
    with that key as its poster; `videoSrc` is always its own source.
  */
  lemma VideoPosterMatched(images: SourceMap, videos: SourceMap, k: nat, j: nat)
    requires k < |videos| && j < |images|
    requires KeyOf(ImageEntries(images)[j]) == KeyOf(Entries(images, videos)[|images| + k])
    requires forall i :: j < i < |images| ==> KeyOf(ImageEntries(images)[i]) != KeyOf(ImageEntries(images)[j])
    ensures Entries(images, videos)[|images| + k].item == Video(images[j].1, NormalizeAlt(Entries(images, videos)[|images| + k].filename), videos[k].1)
  {
    VideoEntryAt(images, videos, k);
    ImageByKeyLastWins(ImageEntries(images), j);
  }

  /** A video that no image matches has the empty poster `""`. */
  lemma VideoPosterUnmatched(images: SourceMap, videos: SourceMap, k: nat)
    requires k < |videos|
    requires forall i :: 0 <= i < |images| ==> KeyOf(ImageEntries(images)[i]) != KeyOf(Entries(images, videos)[|images| + k])
    ensures Entries(images, videos)[|images| + k].item == Video("", NormalizeAlt(Entries(images, videos)[|images| + k].filename), videos[k].1)
  {
    VideoEntryAt(images, videos, k);
    ImageByKeyMissing(ImageEntries(images), KeyOf(Entries(images, videos)[|images| + k]));
  }

  /** The entry of the `k`-th video follows all image entries. */
  lemma VideoEntryAt(images: SourceMap, videos: SourceMap, k: nat)
    requires k < |videos|
    ensures |Entries(images, videos)| == |images| + |videos|
    ensures Entries(images, videos)[|images| + k] == VideoEntries(videos, ImageByKey(ImageEntries(images)))[k]
  {
  }

  // ---------------------------------------------------------------------
  // entries.sort((a, b) => a.filename.localeCompare(b.filename, undefined, { numeric: true }))

  /** The comparator read as "sorts no later than" is total and transitive. */
  ghost predicate TotalPreorder(le: (string, string) -> bool)
  {
    && (forall a, b :: le(a, b) || le(b, a))
    && (forall a, b, c :: le(a, b) && le(b, c) ==> le(a, c))
  }

  /** Two file names the comparator cannot tell apart. */
  predicate Tied(le: (string, string) -> bool, a: string, b: string)
  {
    le(a, b) && le(b, a)
  }

  predicate SortedByFilename(s: seq<Entry>, le: (string, string) -> bool)
  {
    forall i, j :: 0 <= i < j < |s| ==> le(s[i].filename, s[j].filename)
  }

  /** Inserts `x` before the first entry it sorts no later than. */
  function InsertByFilename(x: Entry, t: seq<Entry>, le: (string, string) -> bool): (r: seq<Entry>)
    ensures multiset(r) == multiset(t) + multiset{x}
  {
    if t == [] then [x]
    else if le(x.filename, t[0].filename) then [x] + t
    else
      assert t == [t[0]] + t[1..];
      [t[0]] + InsertByFilename(x, t[1..], le)
  }

  /**
    `Array.prototype.sort`, which is stable: the order it produces is
    the one a stable insertion sort produces.
  */
  function SortByFilename(s: seq<Entry>, le: (string, string) -> bool): (r: seq<Entry>)
    ensures multiset(r) == multiset(s)
  {
    if s == [] then []
    else
      assert s == [s[0]] + s[1..];
      InsertByFilename(s[0], SortByFilename(s[1..], le), le)
  }

  lemma {:induction false} InsertSorted(x: Entry, t: seq<Entry>, le: (string, string) -> bool)
    requires TotalPreorder(le)
    requires SortedByFilename(t, le)
    ensures SortedByFilename(InsertByFilename(x, t, le), le)
  {
    if t == [] {
    } else if le(x.filename, t[0].filename) {
      var r := [x] + t;
      forall i, j | 0 <= i < j < |r| ensures le(r[i].filename, r[j].filename) {
        if i == 0 && j > 1 {
          assert le(t[0].filename, t[j - 1].filename);
        }
      }
    } else {
      var rest := InsertByFilename(x, t[1..], le);
      InsertPastHead(x, t, le);
      assert SortedByFilename(t[1..], le);
      InsertSorted(x, t[1..], le);
      assert forall y :: y in rest ==> le(t[0].filename, y.filename) by {
        HeadBeforeInserted(x, t, le);
      }
      ConsSorted(t[0], rest, le);
    }
  }

  /** The head of a sorted list sorts no later than `x` when `x` is not inserted before it, nor than the rest. */
  lemma HeadBeforeInserted(x: Entry, t: seq<Entry>, le: (string, string) -> bool)
    requires TotalPreorder(le)
    requires SortedByFilename(t, le)
    requires t != [] && !le(x.filename, t[0].filename)
    ensures forall y :: y in InsertByFilename(x, t[1..], le) ==> le(t[0].filename, y.filename)
  {
    var rest := InsertByFilename(x, t[1..], le);
    forall y | y in rest ensures le(t[0].filename, y.filename) {
      assert y in multiset(rest);
      if y != x {
        assert y in multiset(t[1..]);
        assert y in t[1..];
        var k :| 0 <= k < |t[1..]| && t[1..][k] == y;
        assert t[k + 1] == y;
      }
    }
  }

  /** Putting an entry that sorts no later than every entry of a sorted list in front keeps it sorted. */
  lemma ConsSorted(h: Entry, rest: seq<Entry>, le: (string, string) -> bool)
    requires SortedByFilename(rest, le)
    requires forall y :: y in rest ==> le(h.filename, y.filename)
    ensures SortedByFilename([h] + rest, le)
  {
    var r := [h] + rest;
    forall i, j | 0 <= i < j < |r| ensures le(r[i].filename, r[j].filename) {
      if i == 0 {
        assert r[j] == rest[j - 1];
      } else {
        assert r[i] == rest[i - 1] && r[j] == rest[j - 1];
      }
    }
  }

  /** The sort puts the file names in non-decreasing comparator order. */
  lemma {:induction false} SortSorted(s: seq<Entry>, le: (string, string) -> bool)
    requires TotalPreorder(le)
    ensures SortedByFilename(SortByFilename(s, le), le)
  {
    if s != [] {
      SortSorted(s[1..], le);
      InsertSorted(s[0], SortByFilename(s[1..], le), le);
    }
  }

  /** The entries of `s` whose file name ties with `name`, in the order of `s`. */
  function TiedWith(s: seq<Entry>, name: string, le: (string, string) -> bool): seq<Entry>
  {
    if s == [] then []
    else (if Tied(le, s[0].filename, name) then [s[0]] else []) + TiedWith(s[1..], name, le)
  }

  lemma {:induction false} TiedWithAppend(a: seq<Entry>, b: seq<Entry>, name: string, le: (string, string) -> bool)
    ensures TiedWith(a + b, name, le) == TiedWith(a, name, le) + TiedWith(b, name, le)
  {
    if a != [] {
      assert (a + b)[1..] == a[1..] + b;
      TiedWithAppend(a[1..], b, name, le);
    } else {
      assert a + b == b;
    }
  }

  lemma TiedWithCons(e: Entry, s: seq<Entry>, name: string, le: (string, string) -> bool)
    ensures TiedWith([e] + s, name, le) == (if Tied(le, e.filename, name) then [e] else []) + TiedWith(s, name, le)
  {
    assert ([e] + s)[1..] == s;
  }

  /** Any two names that tie with `name` are ordered both ways. */
  ghost predicate TiesAgree(le: (string, string) -> bool, name: string)
  {
    forall a, b :: Tied(le, a, name) && Tied(le, b, name) ==> le(a, b)
  }

  lemma TotalPreorderTiesAgree(le: (string, string) -> bool, name: string)
    requires TotalPreorder(le)
    ensures TiesAgree(le, name)
  {
  }

  lemma {:induction false} InsertKeepsTies(x: Entry, t: seq<Entry>, name: string, le: (string, string) -> bool)
    requires TiesAgree(le, name)
    ensures TiedWith(InsertByFilename(x, t, le), name, le) == TiedWith([x] + t, name, le)
  {
    if t != [] && !le(x.filename, t[0].filename) {
      var y, t' := t[0], t[1..];
      var inserted := InsertByFilename(x, t', le);
      var xs := if Tied(le, x.filename, name) then [x] else [];
      var ys := if Tied(le, y.filename, name) then [y] else [];
      var rest := TiedWith(t', name, le);
      InsertPastHead(x, t, le);
      assert TiedWith(InsertByFilename(x, t, le), name, le) == ys + (xs + rest) by {
        TiedWithCons(y, inserted, name, le);
        InsertKeepsTies(x, t', name, le);
        TiedWithCons(x, t', name, le);
      }
      assert TiedWith([x] + t, name, le) == xs + (ys + rest) by {
        TiedWithCons(x, t, name, le);
        HeadTail(t);
        TiedWithCons(y, t', name, le);
      }
      assert Tied(le, x.filename, name) && Tied(le, y.filename, name) ==> le(x.filename, y.filename);
      AtMostOneFirst(xs, ys, rest);
    }
  }

  /** Inserting an entry that sorts after the head keeps the head first. */
  lemma HeadTail(t: seq<Entry>)
    requires t != []
    ensures t == [t[0]] + t[1..]
  {
  }

  lemma InsertPastHead(x: Entry, t: seq<Entry>, le: (string, string) -> bool)
    requires t != [] && !le(x.filename, t[0].filename)
    ensures InsertByFilename(x, t, le) == [t[0]] + InsertByFilename(x, t[1..], le)
  {
  }

  lemma AtMostOneFirst(xs: seq<Entry>, ys: seq<Entry>, rest: seq<Entry>)
    requires xs == [] || ys == []
    ensures ys + (xs + rest) == xs + (ys + rest)
  {
    if xs == [] {
      assert ys + (xs + rest) == ys + rest;
    } else {
      assert ys + (xs + rest) == xs + rest;
    }
  }

  /** Stability: entries that tie keep the relative order they had before the sort. */
  lemma {:induction false} SortKeepsTies(s: seq<Entry>, name: string, le: (string, string) -> bool)
    requires TotalPreorder(le)
    ensures TiedWith(SortByFilename(s, le), name, le) == TiedWith(s, name, le)
  {
    if s != [] {
      SortKeepsTies(s[1..], name, le);
      TotalPreorderTiesAgree(le, name);
      InsertKeepsTies(s[0], SortByFilename(s[1..], le), name, le);
      assert ([s[0]] + SortByFilename(s[1..], le))[1..] == SortByFilename(s[1..], le);
    }
  }

  // ---------------------------------------------------------------------
  // The buckets: byCategory[category].push(item)

  /** The entries of `s` whose category is `c`, in the order of `s`. */
  function OfCategory(s: seq<Entry>, c: string): (r: seq<Entry>)
    ensures forall e :: e in r ==> e in s && e.category == c
  {
    if s == [] then []
    else
      var last := s[|s| - 1];
      var p := s[..|s| - 1];
      assert forall e :: e in p ==> e in s;
      OfCategory(p, c) + (if last.category == c then [last] else [])
  }

  lemma {:induction false} OfCategoryAppend(a: seq<Entry>, b: seq<Entry>, c: string)
    ensures OfCategory(a + b, c) == OfCategory(a, c) + OfCategory(b, c)
    decreases |b|
  {
    if b == [] {
      assert a + b == a;
    } else {
      var last := b[|b| - 1];
      var tail := if last.category == c then [last] else [];
      assert (a + b)[..|a + b| - 1] == a + b[..|b| - 1];
      assert (a + b)[|a + b| - 1] == last;
      assert OfCategory(a + b, c) == OfCategory(a + b[..|b| - 1], c) + tail;
      assert OfCategory(b, c) == OfCategory(b[..|b| - 1], c) + tail;
      OfCategoryAppend(a, b[..|b| - 1], c);
    }
  }

  lemma {:induction false} OfCategoryCount(s: seq<Entry>, c: string, x: Entry)
    ensures multiset(OfCategory(s, c))[x] == if x.category == c then multiset(s)[x] else 0
  {
    if s != [] {
      var p := s[..|s| - 1];
      OfCategoryCount(p, c, x);
      assert s == p + [s[|s| - 1]];
    }
  }

  /** Reordering the entries does not change which ones a bucket receives, nor how often. */
  lemma OfCategoryPermutation(s: seq<Entry>, t: seq<Entry>, c: string)
    requires multiset(s) == multiset(t)
    ensures multiset(OfCategory(s, c)) == multiset(OfCategory(t, c))
  {
    forall x ensures multiset(OfCategory(s, c))[x] == multiset(OfCategory(t, c))[x] {
      OfCategoryCount(s, c, x);
      OfCategoryCount(t, c, x);
    }
  }

  lemma {:induction false} OfCategorySorted(s: seq<Entry>, c: string, le: (string, string) -> bool)
    requires SortedByFilename(s, le)
    ensures SortedByFilename(OfCategory(s, c), le)
  {
    if s != [] {
      var p := s[..|s| - 1];
      var last := s[|s| - 1];
      OfCategorySorted(p, c, le);
      var r := OfCategory(s, c);
      var q := OfCategory(p, c);
      if last.category == c {
        forall i, j | 0 <= i < j < |r| ensures le(r[i].filename, r[j].filename) {
          if j == |r| - 1 {
            assert r[i] == q[i];
            assert q[i] in p;
            var k :| 0 <= k < |p| && p[k] == q[i];
            assert s[k] == q[i];
          }
        }
      }
    }
  }

  lemma OfCategorySingle(e: Entry, c: string)
    ensures OfCategory([e], c) == if e.category == c then [e] else []
  {
    assert [e][..0] == [];
  }

  /** Filtering by category and by tie commute. */
  lemma {:induction false} TiedWithOfCategory(s: seq<Entry>, c: string, name: string, le: (string, string) -> bool)
    ensures TiedWith(OfCategory(s, c), name, le) == OfCategory(TiedWith(s, name, le), c)
  {
    if s != [] {
      var e, rest := s[0], s[1..];
      assert s == [e] + rest;
      var head := if Tied(le, e.filename, name) then [e] else [];
      TiedWithOfCategory(rest, c, name, le);
      OfCategoryAppend([e], rest, c);
      OfCategorySingle(e, c);
      TiedWithAppend(OfCategory([e], c), OfCategory(rest, c), name, le);
      TiedWithCons(e, [], name, le);
      OfCategoryAppend(head, TiedWith(rest, name, le), c);
    }
  }

  function ItemsOf(s: seq<Entry>): (r: seq<Item>)
  {
    seq(|s|, k requires 0 <= k < |s| => s[k].item)
  }

  lemma ItemsOfAppend(a: seq<Entry>, b: seq<Entry>)
    ensures ItemsOf(a + b) == ItemsOf(a) + ItemsOf(b)
  {
  }

  /** The category index: the bucket keys in insertion order, and the buckets. */
  datatype CategoryIndex = CategoryIndex(order: seq<string>, buckets: map<string, seq<Item>>)

  /** The key order lists exactly the bucket keys, each once, and no bucket is empty. */
  ghost predicate WellFormed(index: CategoryIndex)
  {
    && (forall c :: c in index.buckets <==> c in index.order)
    && (forall c :: c in index.buckets ==> index.buckets[c] != [])
    && (forall i, j :: 0 <= i < j < |index.order| ==> index.order[i] != index.order[j])
  }

  /**
    One step of the bucketing loop: the item is appended to its category's
    bucket, which is created, and its key listed last, on first use.
  */
  function Push(index: CategoryIndex, category: string, item: Item): (r: CategoryIndex)
    requires WellFormed(index)
    ensures WellFormed(r)
    ensures r.order == (if category in index.buckets then index.order else index.order + [category])
  {
    var bucket := if category in index.buckets then index.buckets[category] else [];
    var order := if category in index.buckets then index.order else index.order + [category];
    CategoryIndex(order, index.buckets[category := bucket + [item]])
  }

  /** `Push` written as the two assignments of the loop body. */
  lemma PushUnfold(index: CategoryIndex, category: string, item: Item)
    requires WellFormed(index)
    ensures category in index.buckets ==>
      Push(index, category, item) == CategoryIndex(index.order, index.buckets[category := index.buckets[category] + [item]])
    ensures category !in index.buckets ==>
      Push(index, category, item) == CategoryIndex(index.order + [category], index.buckets[category := []][category := [] + [item]])
  {
    if category !in index.buckets {
      assert index.buckets[category := []][category := [] + [item]] == index.buckets[category := [] + [item]];
    }
  }

  /**
    Pushing an item adds exactly that item to the flattened index.
  */
  lemma PushFlatten(index: CategoryIndex, category: string, item: Item)
    requires WellFormed(index)
    ensures multiset(Flatten(Push(index, category, item).order, Push(index, category, item).buckets))
         == multiset(Flatten(index.order, index.buckets)) + multiset{item}
  {
    var r := Push(index, category, item);
    forall d | d in index.order
      ensures d in r.buckets && (d != category ==> r.buckets[d] == index.buckets[d])
    {
      PushBucket(index, category, item, d);
    }
    if category in index.buckets {
      PushBucket(index, category, item, category);
      FlattenGrow(index.order, index.buckets, r.buckets, category, item);
    } else {
      PushBucket(index, category, item, category);
      FlattenAppend(index.order, category, r.buckets);
      FlattenAgree(index.order, index.buckets, r.buckets);
    }
  }

  /**
    The index that pushing the items of `s`, in order, produces.
  */
  function Bucketed(s: seq<Entry>): (index: CategoryIndex)
    ensures WellFormed(index)
  {
    if s == [] then CategoryIndex([], map[])
    else Push(Bucketed(s[..|s| - 1]), s[|s| - 1].category, s[|s| - 1].item)
  }

  /**
    Each bucket holds the items of exactly the entries of its category, in
    the order of `s`; a category without a bucket has no entries.
  */
  lemma {:induction false} BucketedContents(s: seq<Entry>, c: string)
    ensures c in Bucketed(s).buckets ==> Bucketed(s).buckets[c] == ItemsOf(OfCategory(s, c))
    ensures c !in Bucketed(s).buckets ==> OfCategory(s, c) == []
  {
    if s != [] {
      var p := s[..|s| - 1];
      var e := s[|s| - 1];
      var tail := if e.category == c then [e] else [];
      assert OfCategory(s, c) == OfCategory(p, c) + tail;
      ItemsOfAppend(OfCategory(p, c), tail);
      BucketedContents(p, c);
      BucketedSnoc(s, c);
    }
  }

  /** Bucketing one more entry of `s` is one more `Push`. */
  lemma BucketedStep(s: seq<Entry>, i: nat)
    requires i < |s|
    ensures Bucketed(s[..i + 1]) == Push(Bucketed(s[..i]), s[i].category, s[i].item)
  {
    var t := s[..i + 1];
    assert t[..i] == s[..i];
    assert t[i] == s[i];
  }

  /** What bucketing the last entry of `s` does to the bucket of `c`. */
  lemma BucketedSnoc(s: seq<Entry>, c: string)
    requires s != []
    ensures var b, e := Bucketed(s[..|s| - 1]), s[|s| - 1];
      && (c in Bucketed(s).buckets <==> c in b.buckets || e.category == c)
      && (c in Bucketed(s).buckets ==>
            Bucketed(s).buckets[c] == (if c in b.buckets then b.buckets[c] else []) + (if e.category == c then [e.item] else []))
  {
    var b, e := Bucketed(s[..|s| - 1]), s[|s| - 1];
    PushBucket(b, e.category, e.item, c);
  }

  /** What `Push` does to the bucket of any one key. */
  lemma PushBucket(index: CategoryIndex, category: string, item: Item, c: string)
    requires WellFormed(index)
    ensures var r := Push(index, category, item);
      && (c in r.buckets <==> c in index.buckets || category == c)
      && (c in r.buckets ==>
            r.buckets[c] == (if c in index.buckets then index.buckets[c] else []) + (if category == c then [item] else []))
  {
  }

  /** The sorted entries `buildItems` buckets. */
  function SortedEntries(images: SourceMap, videos: SourceMap, le: (string, string) -> bool): seq<Entry>
  {
    SortByFilename(Entries(images, videos), le)
  }

  /** `galleryByCategory`, as a value. */
  function GalleryByCategory(images: SourceMap, videos: SourceMap, le: (string, string) -> bool): CategoryIndex
  {
    Bucketed(SortedEntries(images, videos, le))
  }

  /** `Object.values(byCategory).flat()`, taking the keys in `order`. */
  function Flatten(order: seq<string>, buckets: map<string, seq<Item>>): seq<Item>
  {
    if order == [] then []
    else (if order[0] in buckets then buckets[order[0]] else []) + Flatten(order[1..], buckets)
  }

  lemma {:induction false} FlattenAppend(order: seq<string>, c: string, buckets: map<string, seq<Item>>)
    requires c in buckets
    ensures Flatten(order + [c], buckets) == Flatten(order, buckets) + buckets[c]
  {
    if order == [] {
      assert [c][1..] == [];
    } else {
      assert (order + [c])[1..] == order[1..] + [c];
      FlattenAppend(order[1..], c, buckets);
    }
  }

  lemma {:induction false} FlattenAgree(order: seq<string>, b1: map<string, seq<Item>>, b2: map<string, seq<Item>>)
    requires forall c :: c in order ==> c in b1 && c in b2 && b1[c] == b2[c]
    ensures Flatten(order, b1) == Flatten(order, b2)
  {
    if order != [] {
      FlattenAgree(order[1..], b1, b2);
    }
  }

  /** Appending an item to one bucket adds exactly that item to the flattened index. */
  lemma {:induction false} FlattenGrow(order: seq<string>, b1: map<string, seq<Item>>, b2: map<string, seq<Item>>, c: string, x: Item)
    requires forall i, j :: 0 <= i < j < |order| ==> order[i] != order[j]
    requires c in order
    requires forall d :: d in order ==> d in b1 && d in b2
    requires forall d :: d in order && d != c ==> b2[d] == b1[d]
    requires b2[c] == b1[c] + [x]
    ensures multiset(Flatten(order, b2)) == multiset(Flatten(order, b1)) + multiset{x}
  {
    if order[0] == c {
      assert c !in order[1..];
      FlattenAgree(order[1..], b1, b2);
    } else {
      FlattenGrow(order[1..], b1, b2, c, x);
    }
  }

  /**
    Bucketing is a partition: the buckets together hold every entry's item
    exactly as often as the entries do.
  */
  lemma {:induction false} BucketedPartition(s: seq<Entry>)
    ensures multiset(Flatten(Bucketed(s).order, Bucketed(s).buckets)) == multiset(ItemsOf(s))
  {
    if s != [] {
      var p := s[..|s| - 1];
      var e := s[|s| - 1];
      assert multiset(ItemsOf(s)) == multiset(ItemsOf(p)) + multiset{e.item} by {
        assert s == p + [e];
        ItemsOfAppend(p, [e]);
      }
      BucketedPartition(p);
      BucketedFlattenSnoc(s);
    }
  }

  /** The last entry's item is what bucketing it adds to the flattened index. */
  lemma BucketedFlattenSnoc(s: seq<Entry>)
    requires s != []
    ensures multiset(Flatten(Bucketed(s).order, Bucketed(s).buckets))
         == multiset(Flatten(Bucketed(s[..|s| - 1]).order, Bucketed(s[..|s| - 1]).buckets)) + multiset{s[|s| - 1].item}
  {
    var b := Bucketed(s[..|s| - 1]);
    PushFlatten(b, s[|s| - 1].category, s[|s| - 1].item);
  }

  /**
    `buildItems`: sorts the entries and pushes each item, in sorted order,
    into the bucket of its category, creating a bucket on first use.
  */
  method BuildItems(images: SourceMap, videos: SourceMap, le: (string, string) -> bool) returns (index: CategoryIndex)
    ensures index == GalleryByCategory(images, videos, le)
    ensures forall c :: c in index.buckets ==> index.buckets[c] == ItemsOf(OfCategory(SortedEntries(images, videos, le), c))
    ensures multiset(Flatten(index.order, index.buckets)) == multiset(ItemsOf(Entries(images, videos)))
    ensures |Flatten(index.order, index.buckets)| == |images| + |videos|
  {
    var sorted := SortByFilename(Entries(images, videos), le);
    index := BucketInOrder(sorted);
    GalleryByCategoryContents(images, videos, le);
  }

  /** The `forEach` over the sorted entries: the loop builds `Bucketed(sorted)`. */
  method BucketInOrder(sorted: seq<Entry>) returns (index: CategoryIndex)
    ensures index == Bucketed(sorted)
  {
    var order: seq<string> := [];
    var buckets: map<string, seq<Item>> := map[];
    var i := 0;
    while i < |sorted|
      invariant 0 <= i <= |sorted|
      invariant CategoryIndex(order, buckets) == Bucketed(sorted[..i])
    {
      var category, item := sorted[i].category, sorted[i].item;
      ghost var before := CategoryIndex(order, buckets);
      BucketedStep(sorted, i);
      if category !in buckets {
        order := order + [category];
        buckets := buckets[category := []];
      }
      buckets := buckets[category := buckets[category] + [item]];
      PushUnfold(before, category, item);
      i := i + 1;
    }
    assert sorted[..i] == sorted;
    index := CategoryIndex(order, buckets);
  }

  /**
    The index `buildItems` returns: each bucket holds the items of its
    category in sorted order, and the buckets together hold every image and
    every video exactly once.
  */
  lemma GalleryByCategoryContents(images: SourceMap, videos: SourceMap, le: (string, string) -> bool)
    ensures var index := GalleryByCategory(images, videos, le);
      forall c :: c in index.buckets ==> index.buckets[c] == ItemsOf(OfCategory(SortedEntries(images, videos, le), c))
    ensures var index := GalleryByCategory(images, videos, le);
      multiset(Flatten(index.order, index.buckets)) == multiset(ItemsOf(Entries(images, videos)))
    ensures var index := GalleryByCategory(images, videos, le);
      |Flatten(index.order, index.buckets)| == |images| + |videos|
  {
    var sorted := SortedEntries(images, videos, le);
    var index := Bucketed(sorted);
    forall c | c in index.buckets ensures index.buckets[c] == ItemsOf(OfCategory(sorted, c)) {
      BucketedContents(sorted, c);
    }
    assert multiset(Flatten(index.order, index.buckets)) == multiset(ItemsOf(Entries(images, videos))) by {
      BucketedPartition(sorted);
      ItemsOfPermutation(sorted, Entries(images, videos));
    }
    assert |Flatten(index.order, index.buckets)| == |images| + |videos| by {
      assert |multiset(Flatten(index.order, index.buckets))| == |multiset(ItemsOf(Entries(images, videos)))|;
    }
  }

  lemma {:induction false} ItemsOfCount(s: seq<Entry>, x: Item)
    ensures multiset(ItemsOf(s))[x] == |OfItem(s, x)|
  {
    if s != [] {
      var p := s[..|s| - 1];
      ItemsOfCount(p, x);
      ItemsOfAppend(p, [s[|s| - 1]]);
      assert s == p + [s[|s| - 1]];
    }
  }

  /** The entries of `s` that carry the item `x`. */
  function OfItem(s: seq<Entry>, x: Item): seq<Entry>
  {
    if s == [] then [] else OfItem(s[..|s| - 1], x) + (if s[|s| - 1].item == x then [s[|s| - 1]] else [])
  }

  lemma ItemsOfPermutation(s: seq<Entry>, t: seq<Entry>)
    requires multiset(s) == multiset(t)
    ensures multiset(ItemsOf(s)) == multiset(ItemsOf(t))
  {
    forall x ensures multiset(ItemsOf(s))[x] == multiset(ItemsOf(t))[x] {
      ItemsOfCount(s, x);
      ItemsOfCount(t, x);
      OfItemPermutation(s, t, x);
    }
  }

  lemma {:induction false} OfItemMultiset(s: seq<Entry>, x: Item, e: Entry)
    ensures multiset(OfItem(s, x))[e] == if e.item == x then multiset(s)[e] else 0
  {
    if s != [] {
      var p := s[..|s| - 1];
      OfItemMultiset(p, x, e);
      assert s == p + [s[|s| - 1]];
    }
  }

  lemma OfItemPermutation(s: seq<Entry>, t: seq<Entry>, x: Item)
    requires multiset(s) == multiset(t)
    ensures |OfItem(s, x)| == |OfItem(t, x)|
  {
    forall e ensures multiset(OfItem(s, x))[e] == multiset(OfItem(t, x))[e] {
      OfItemMultiset(s, x, e);
      OfItemMultiset(t, x, e);
    }
    assert multiset(OfItem(s, x)) == multiset(OfItem(t, x));
    assert |multiset(OfItem(s, x))| == |OfItem(s, x)|;
  }

  // ---------------------------------------------------------------------
  // getLocalGalleryImages(category)

  /**
    `getLocalGalleryImages`: the category is lower-cased; "all" yields every
    bucket in key order, any other name its own bucket, or nothing when
    there is none.
  */
  function GetLocalGalleryImages(index: CategoryIndex, category: string): (r: seq<Item>)
    ensures r != [] ==> Lower(category) == "all" || Lower(category) in index.buckets
  {
    var normalized := Lower(category);
    if normalized == "all" then Flatten(index.order, index.buckets)
    else if normalized in index.buckets then index.buckets[normalized]
    else []
  }

  /** The lookup ignores the case of the category it is given. */
  lemma LookupIgnoresCase(index: CategoryIndex, category: string)
    ensures GetLocalGalleryImages(index, category) == GetLocalGalleryImages(index, Lower(category))
  {
    LowerIsLower(category);
  }

  /** "all", in any casing, yields every image and every video exactly once. */
  lemma LookupAll(images: SourceMap, videos: SourceMap, le: (string, string) -> bool, category: string)
    requires Lower(category) == "all"
    ensures multiset(GetLocalGalleryImages(GalleryByCategory(images, videos, le), category))
         == multiset(ItemsOf(Entries(images, videos)))
    ensures |GetLocalGalleryImages(GalleryByCategory(images, videos, le), category)| == |images| + |videos|
  {
    GalleryByCategoryContents(images, videos, le);
  }

  /**
    Any other name yields exactly the items whose file sits in a folder of
    that name (in any casing), in sorted order; a name no folder has yields
    nothing.
  */
  lemma LookupCategory(images: SourceMap, videos: SourceMap, le: (string, string) -> bool, category: string)
    requires Lower(category) != "all"
    ensures GetLocalGalleryImages(GalleryByCategory(images, videos, le), category)
         == ItemsOf(OfCategory(SortedEntries(images, videos, le), Lower(category)))
  {
    BucketedContents(SortedEntries(images, videos, le), Lower(category));
  }

  /**
    What a bucket is built from: the entries of its category, sorted by file
    name, each entry of the category exactly once, and entries whose names
    tie in the order they were enumerated (images before videos).
  */
  lemma CategoryEntriesSorted(images: SourceMap, videos: SourceMap, le: (string, string) -> bool, c: string, name: string)
    requires TotalPreorder(le)
    ensures SortedByFilename(OfCategory(SortedEntries(images, videos, le), c), le)
    ensures multiset(OfCategory(SortedEntries(images, videos, le), c)) == multiset(OfCategory(Entries(images, videos), c))
    ensures TiedWith(OfCategory(SortedEntries(images, videos, le), c), name, le)
         == OfCategory(TiedWith(ImageEntries(images), name, le), c)
          + OfCategory(TiedWith(VideoEntries(videos, ImageByKey(ImageEntries(images))), name, le), c)
  {
    var es := Entries(images, videos);
    var sorted := SortedEntries(images, videos, le);
    SortSorted(es, le);
    OfCategorySorted(sorted, c, le);
    OfCategoryPermutation(sorted, es, c);
    TiedWithOfCategory(sorted, c, name, le);
    SortKeepsTies(es, name, le);
    TiedWithOfCategory(es, c, name, le);
    var ims := ImageEntries(images);
    var vids := VideoEntries(videos, ImageByKey(ims));
    TiedWithAppend(ims, vids, name, le);
    OfCategoryAppend(TiedWith(ims, name, le), TiedWith(vids, name, le), c);
  }

  /** A filter that every entry passes keeps them all. */
  lemma {:induction false} OfCategoryAll(s: seq<Entry>, c: string)
    requires AllOfCategory(s, c)
    ensures OfCategory(s, c) == s
  {
    if s != [] {
      var p := s[..|s| - 1];
      AllOfCategoryPrefix(s, c);
      OfCategoryAll(p, c);
      assert s == p + [s[|s| - 1]];
    }
  }

  predicate AllOfCategory(s: seq<Entry>, c: string)
  {
    forall k :: 0 <= k < |s| ==> s[k].category == c
  }

  lemma AllOfCategoryPrefix(s: seq<Entry>, c: string)
    requires s != [] && AllOfCategory(s, c)
    ensures AllOfCategory(s[..|s| - 1], c) && s[|s| - 1].category == c
  {
  }

  /** The files of one folder as the glob reports them: `root/dir/file` with its URL. */
  function FolderSources(root: string, dir: string, files: seq<string>): (m: SourceMap)
  {
    seq(|files|, k requires 0 <= k < |files| => (root + "/" + dir + "/" + files[k], files[k]))
  }

  predicate NoSlashes(files: seq<string>)
  {
    forall k :: 0 <= k < |files| ==> '/' !in files[k]
  }

  /** Every entry built from the files of one folder has that folder's lower-cased name as its category. */
  lemma FolderEntries(root: string, dir: string, imageFiles: seq<string>, videoFiles: seq<string>)
    requires '/' !in dir && NoSlashes(imageFiles) && NoSlashes(videoFiles)
    ensures var es := Entries(FolderSources(root, dir, imageFiles), FolderSources(root, dir, videoFiles));
      |es| == |imageFiles| + |videoFiles| && AllOfCategory(es, Lower(dir))
  {
    var images, videos := FolderSources(root, dir, imageFiles), FolderSources(root, dir, videoFiles);
    var es := Entries(images, videos);
    EntryCategories(images, videos);
    forall k | 0 <= k < |es| ensures es[k].category == Lower(dir) {
      if k < |images| {
        CategoryOfFileInDirectory(root, dir, imageFiles[k]);
      } else {
        CategoryOfFileInDirectory(root, dir, videoFiles[k - |images|]);
        assert es[|images| + (k - |images|)] == es[k];
      }
    }
  }

  /** Every entry takes its category from its own path. */
  lemma EntryCategories(images: SourceMap, videos: SourceMap)
    ensures |Entries(images, videos)| == |images| + |videos|
    ensures forall k :: 0 <= k < |images| ==> Entries(images, videos)[k].category == CategoryFromPath(images[k].0)
    ensures forall k :: 0 <= k < |videos| ==> Entries(images, videos)[|images| + k].category == CategoryFromPath(videos[k].0)
  {
    forall k | 0 <= k < |videos|
      ensures Entries(images, videos)[|images| + k].category == CategoryFromPath(videos[k].0)
    {
      VideoEntryAt(images, videos, k);
    }
  }

  /**
    Looking up a folder's name, in any case, lists every image and every
    video of that folder: a poster image stays listed on its own.
  */
  lemma FolderLookup(root: string, dir: string, imageFiles: seq<string>, videoFiles: seq<string>, le: (string, string) -> bool)
    requires '/' !in dir && NoSlashes(imageFiles) && NoSlashes(videoFiles)
    requires Lower(dir) != "all"
    ensures var images, videos := FolderSources(root, dir, imageFiles), FolderSources(root, dir, videoFiles);
      multiset(GetLocalGalleryImages(GalleryByCategory(images, videos, le), dir)) == multiset(ItemsOf(Entries(images, videos)))
    ensures var images, videos := FolderSources(root, dir, imageFiles), FolderSources(root, dir, videoFiles);
      |GetLocalGalleryImages(GalleryByCategory(images, videos, le), dir)| == |imageFiles| + |videoFiles|
  {
    var images, videos := FolderSources(root, dir, imageFiles), FolderSources(root, dir, videoFiles);
    var es := Entries(images, videos);
    FolderEntries(root, dir, imageFiles, videoFiles);
    var sorted := SortedEntries(images, videos, le);
    assert AllOfCategory(sorted, Lower(dir)) by {
      forall k | 0 <= k < |sorted| ensures sorted[k].category == Lower(dir) {
        assert sorted[k] in multiset(es);
      }
    }
    OfCategoryAll(sorted, Lower(dir));
    LookupCategory(images, videos, le, dir);
    ItemsOfPermutation(sorted, es);
    assert |sorted| == |multiset(es)|;
  }

  /** A base name without separators and without whitespace at its ends. */
  predicate PlainBase(base: string)
  {
    NoSeparators(base) && (base == [] || (!IsWhitespace(base[0]) && !IsWhitespace(base[|base| - 1])))
  }

  /** A file `base.ext` strips to `base`, which is also its alternative text. */
  lemma PlainFileName(base: string, ext: string)
    requires IsExtension(ext) && PlainBase(base)
    ensures StripExtension(base + "." + ext) == base
    ensures NormalizeAlt(base + "." + ext) == base
  {
    var f := base + "." + ext;
    assert f[|base|] == '.' && f[|base| + 1..] == ext;
    assert StartsExtension(f, |base|);
    var r := StripExtension(f);
    assert r != f;
    ExtensionDotUnique(f, |r|, |base|);
    assert f[..|base|] == base;
    CollapseWithoutSeparators(base);
    TrimUntouched(base);
  }

  /** The image `root/dir/base.ext` lands in `dir`'s category under the poster key of `base`. */
  lemma FolderImageEntry(root: string, dir: string, base: string, ext: string, src: string)
    requires '/' !in dir && '/' !in base && IsExtension(ext) && PlainBase(base)
    ensures var e := ImageEntry(root + "/" + dir + "/" + (base + "." + ext), src);
      e.category == Lower(dir) && e.item == Image(src, base) && KeyOf(e) == PosterKey(Lower(dir), base)
  {
    var name := base + "." + ext;
    assert '/' !in name by {
      forall k | 0 <= k < |name| ensures name[k] != '/' {
        if k > |base| { assert name[k] == ext[k - |base| - 1]; }
      }
    }
    FileNameOfPath(root + "/" + dir, name, "image");
    CategoryOfFileInDirectory(root, dir, name);
    PlainFileName(base, ext);
  }

  /** The video `root/dir/base.ext` takes the poster stored under the key of `base`, if any. */
  lemma FolderVideoEntry(root: string, dir: string, base: string, ext: string, src: string, imageByKey: map<string, string>)
    requires '/' !in dir && '/' !in base && IsExtension(ext) && PlainBase(base)
    ensures var key := PosterKey(Lower(dir), base);
      VideoEntry(root + "/" + dir + "/" + (base + "." + ext), src, imageByKey).item
        == Video(if key in imageByKey then imageByKey[key] else "", base, src)
  {
    var name := base + "." + ext;
    assert '/' !in name by {
      forall k | 0 <= k < |name| ensures name[k] != '/' {
        if k > |base| { assert name[k] == ext[k - |base| - 1]; }
      }
    }
    FileNameOfPath(root + "/" + dir, name, "video");
    CategoryOfFileInDirectory(root, dir, name);
    PlainFileName(base, ext);
  }

  lemma SelectedNames()
    ensures '/' !in "selected" && NoSlashes(["a.jpg", "b.png"]) && NoSlashes(["a.mp4"])
    ensures Lower("selected") == "selected"
  {
    assert "selected" == ['s', 'e', 'l', 'e', 'c', 't', 'e', 'd'];
    assert "a.jpg" == ['a', '.', 'j', 'p', 'g'];
    assert "a.mp4" == ['a', '.', 'm', 'p', '4'];
    assert "b.png" == ['b', '.', 'p', 'n', 'g'];
    var r := Lower("selected");
    assert r[0] == 's' && r[1] == 'e' && r[2] == 'l' && r[3] == 'e';
    assert r[4] == 'c' && r[5] == 't' && r[6] == 'e' && r[7] == 'd';
  }

  lemma SelectedFileNames()
    ensures IsExtension("jpg") && IsExtension("png") && IsExtension("mp4")
    ensures PlainBase("a") && PlainBase("b") && '/' !in "a" && '/' !in "b"
    ensures "a.jpg" == "a" + "." + "jpg" && "b.png" == "b" + "." + "png" && "a.mp4" == "a" + "." + "mp4"
  {
    assert "jpg" == ['j', 'p', 'g'];
    assert "png" == ['p', 'n', 'g'];
    assert "mp4" == ['m', 'p', '4'];
  }

  /** The poster keys of `a` and `b` in the folder `selected` differ. */
  lemma SelectedKeysDiffer()
    ensures PosterKey("selected", "a") != PosterKey("selected", "b")
  {
    var ka, kb := "selected" + "/" + "a", "selected" + "/" + "b";
    assert ka[9] == 'a' && kb[9] == 'b';
    assert Lower(ka)[9] == 'a' && Lower(kb)[9] == 'b';
  }

  /** The `k`-th image of a folder, named `base.ext`. */
  lemma FolderImage(root: string, dir: string, files: seq<string>, k: nat, base: string, ext: string)
    requires k < |files| && files[k] == base + "." + ext
    requires '/' !in dir && '/' !in base && IsExtension(ext) && PlainBase(base)
    ensures var imageEntries := ImageEntries(FolderSources(root, dir, files));
      |imageEntries| == |files| && imageEntries[k].item == Image(files[k], base)
      && KeyOf(imageEntries[k]) == PosterKey(Lower(dir), base)
  {
    FolderImageEntry(root, dir, base, ext, files[k]);
  }

  /** The items of a folder holding the images `a.ea` and `b.eb`. */
  lemma TwoFolderImages(root: string, dir: string, a: string, ea: string, b: string, eb: string)
    requires '/' !in dir && '/' !in a && '/' !in b
    requires IsExtension(ea) && IsExtension(eb) && PlainBase(a) && PlainBase(b)
    ensures ItemsOf(ImageEntries(FolderSources(root, dir, [a + "." + ea, b + "." + eb])))
         == [Image(a + "." + ea, a), Image(b + "." + eb, b)]
  {
    var files := [a + "." + ea, b + "." + eb];
    var imageEntries := ImageEntries(FolderSources(root, dir, files));
    FolderImage(root, dir, files, 0, a, ea);
    FolderImage(root, dir, files, 1, b, eb);
    ItemsOfPair(imageEntries);
  }

  lemma ItemsOfPair(s: seq<Entry>)
    requires |s| == 2
    ensures ItemsOf(s) == [s[0].item, s[1].item]
  {
  }

  /** The items of the image entries of the folder `selected`. */
  lemma SelectedImageItems(root: string)
    ensures ItemsOf(ImageEntries(FolderSources(root, "selected", ["a.jpg", "b.png"])))
         == [Image("a.jpg", "a"), Image("b.png", "b")]
  {
    SelectedNames();
    SelectedFileNames();
    TwoFolderImages(root, "selected", "a", "jpg", "b", "png");
  }

  /** In the folder `selected`, the poster key of `a` holds `a.jpg`'s source. */
  lemma SelectedPoster(root: string)
    ensures var byKey := ImageByKey(ImageEntries(FolderSources(root, "selected", ["a.jpg", "b.png"])));
      PosterKey("selected", "a") in byKey && byKey[PosterKey("selected", "a")] == "a.jpg"
  {
    var files := ["a.jpg", "b.png"];
    var imageEntries := ImageEntries(FolderSources(root, "selected", files));
    SelectedNames();
    SelectedFileNames();
    FolderImage(root, "selected", files, 0, "a", "jpg");
    FolderImage(root, "selected", files, 1, "b", "png");
    SelectedKeysDiffer();
    ImageByKeyLastWins(imageEntries, 0);
  }

  /** The video entry of the folder `selected`: `a.mp4` with `a.jpg`'s source as its poster. */
  lemma SelectedVideoEntries(root: string)
    ensures var images, videos := FolderSources(root, "selected", ["a.jpg", "b.png"]), FolderSources(root, "selected", ["a.mp4"]);
      ItemsOf(VideoEntries(videos, ImageByKey(ImageEntries(images)))) == [Video("a.jpg", "a", "a.mp4")]
  {
    var images, videos := FolderSources(root, "selected", ["a.jpg", "b.png"]), FolderSources(root, "selected", ["a.mp4"]);
    var byKey := ImageByKey(ImageEntries(images));
    var videoEntries := VideoEntries(videos, byKey);
    SelectedNames();
    SelectedFileNames();
    SelectedPoster(root);
    FolderVideoEntry(root, "selected", "a", "mp4", "a.mp4", byKey);
    assert videoEntries[0] == VideoEntry(root + "/" + "selected" + "/" + ("a" + "." + "mp4"), "a.mp4", byKey);
  }

  /** The items of the entries: those of the images, then those of the videos. */
  lemma EntriesItems(images: SourceMap, videos: SourceMap)
    ensures var imageEntries := ImageEntries(images);
      ItemsOf(Entries(images, videos)) == ItemsOf(imageEntries) + ItemsOf(VideoEntries(videos, ImageByKey(imageEntries)))
  {
    var imageEntries := ImageEntries(images);
    ItemsOfAppend(imageEntries, VideoEntries(videos, ImageByKey(imageEntries)));
  }

  /** The items of the folder `selected`: both images, then the video with `a.jpg` as its poster. */
  lemma SelectedEntries(root: string)
    ensures ItemsOf(Entries(FolderSources(root, "selected", ["a.jpg", "b.png"]), FolderSources(root, "selected", ["a.mp4"])))
         == [Image("a.jpg", "a"), Image("b.png", "b"), Video("a.jpg", "a", "a.mp4")]
  {
    SelectedImageItems(root);
    SelectedVideoEntries(root);
    EntriesItems(FolderSources(root, "selected", ["a.jpg", "b.png"]), FolderSources(root, "selected", ["a.mp4"]));
  }

  /**
    A folder `selected` holding `a.jpg`, `a.mp4` and `b.png` yields three
    items: the video `a.mp4` with `a.jpg`'s source as its poster, and both
    images, `a.jpg` still listed on its own.
  */
  lemma SelectedFolderItems(root: string, le: (string, string) -> bool)
    ensures var images, videos := FolderSources(root, "selected", ["a.jpg", "b.png"]), FolderSources(root, "selected", ["a.mp4"]);
      multiset(GetLocalGalleryImages(GalleryByCategory(images, videos, le), "selected"))
        == multiset{Image("a.jpg", "a"), Image("b.png", "b"), Video("a.jpg", "a", "a.mp4")}
  {
    SelectedNames();
    SelectedEntries(root);
    FolderLookup(root, "selected", ["a.jpg", "b.png"], ["a.mp4"], le);
  }

  // ---------------------------------------------------------------------
  // `byCategory` as the plain object literal `{}` it is written as

  /**
    The lower-case property names an empty object literal already answers
    through `Object.prototype`: `constructor` (the `Object` function) and
    `__proto__` (the prototype itself). Neither value is an array.
  */
  const InheritedNames: set<string> := {"constructor", "__proto__"}

  /** What reading `byCategory[key]` yields. */
  datatype Property = OwnArray(items: seq<Item>) | InheritedMember | Undefined

  function GetProperty(buckets: map<string, seq<Item>>, key: string): (p: Property)
    ensures p.OwnArray? <==> key in buckets
    ensures p.InheritedMember? <==> key !in buckets && key in InheritedNames
  {
    if key in buckets then OwnArray(buckets[key])
    else if key in InheritedNames then InheritedMember
    else Undefined
  }

  /** The outcome of `buildItems` on an object literal: the index, or the `TypeError` `.push` throws. */
  datatype Built = Built(index: CategoryIndex) | PushIsNotAFunction(category: string)

  /**
    One step of the `forEach` as written: `!byCategory[category]` is false
    for an inherited member, so no array is created, and the `push` that
    follows is called on a value that has none.
  */
  function PushAsWritten(index: CategoryIndex, category: string, item: Item): (r: Built)
    ensures r.Built? <==> category in index.buckets || category !in InheritedNames
    ensures WellFormed(index) && r.Built? ==> r.index == Push(index, category, item)
  {
    match GetProperty(index.buckets, category)
    case OwnArray(bucket) => Built(CategoryIndex(index.order, index.buckets[category := bucket + [item]]))
    case Undefined => Built(CategoryIndex(index.order + [category], index.buckets[category := [] + [item]]))
    case InheritedMember => PushIsNotAFunction(category)
  }

  /** The whole `forEach` as written; the first `TypeError` ends it. */
  function BucketedAsWritten(s: seq<Entry>): (r: Built)
    ensures r.Built? ==> WellFormed(r.index)
  {
    if s == [] then Built(CategoryIndex([], map[]))
    else
      match BucketedAsWritten(s[..|s| - 1])
      case PushIsNotAFunction(c) => PushIsNotAFunction(c)
      case Built(index) => PushAsWritten(index, s[|s| - 1].category, s[|s| - 1].item)
  }

  /** No entry's category is an inherited property name. */
  predicate AvoidsInherited(s: seq<Entry>)
  {
    forall k :: 0 <= k < |s| ==> s[k].category !in InheritedNames
  }

  lemma AvoidsInheritedSnoc(s: seq<Entry>)
    requires s != []
    ensures AvoidsInherited(s) <==> AvoidsInherited(s[..|s| - 1]) && s[|s| - 1].category !in InheritedNames
  {
    var p := s[..|s| - 1];
    assert forall k :: 0 <= k < |p| ==> s[k] == p[k];
  }

  /** An own bucket is never created for an inherited name, so the categories of the built index avoid them. */
  lemma {:induction false} BucketedAvoidsInherited(s: seq<Entry>)
    requires AvoidsInherited(s)
    ensures forall c :: c in Bucketed(s).buckets ==> c !in InheritedNames
  {
    if s != [] {
      AvoidsInheritedSnoc(s);
      BucketedAvoidsInherited(s[..|s| - 1]);
    }
  }

  /**
    As written, the bucketing succeeds, and then agrees with `Bucketed`,
    exactly when no entry's category is an inherited name.
  */
  lemma {:induction false} BucketedAsWrittenAgrees(s: seq<Entry>)
    ensures BucketedAsWritten(s).Built? <==> AvoidsInherited(s)
    ensures BucketedAsWritten(s).Built? ==> BucketedAsWritten(s).index == Bucketed(s)
  {
    if s != [] {
      var p, e := s[..|s| - 1], s[|s| - 1];
      BucketedAsWrittenAgrees(p);
      AvoidsInheritedSnoc(s);
      match BucketedAsWritten(p)
      case PushIsNotAFunction(_) =>
        assert !BucketedAsWritten(s).Built?;
      case Built(index) =>
        var r := PushAsWritten(index, e.category, e.item);
        assert BucketedAsWritten(s) == r;
        assert index == Bucketed(p);
        BucketedAvoidsInherited(p);
        assert r.Built? <==> e.category !in InheritedNames;
        assert Bucketed(s) == Push(index, e.category, e.item);
    }
  }

  lemma ConstructorIsLowerCase()
    ensures Lower("constructor") == "constructor"
    ensures '/' !in "constructor" && NoSlashes(["a.jpg"])
  {
    var w := "constructor";
    assert w == ['c', 'o', 'n', 's', 't', 'r', 'u', 'c', 't', 'o', 'r'];
    assert "a.jpg" == ['a', '.', 'j', 'p', 'g'];
    var r := Lower("constructor");
    assert r[0] == 'c' && r[1] == 'o' && r[2] == 'n' && r[3] == 's' && r[4] == 't' && r[5] == 'r';
    assert r[6] == 'u' && r[7] == 'c' && r[8] == 't' && r[9] == 'o' && r[10] == 'r';
  }

  /**
    As written, any non-empty folder whose lower-cased name is `constructor`
    or `__proto__` makes `buildItems` throw while the module loads.
  */
  lemma InheritedFolderThrows(root: string, dir: string, imageFiles: seq<string>, videoFiles: seq<string>, le: (string, string) -> bool)
    requires '/' !in dir && NoSlashes(imageFiles) && NoSlashes(videoFiles)
    requires Lower(dir) in InheritedNames && |imageFiles| + |videoFiles| > 0
    ensures var images, videos := FolderSources(root, dir, imageFiles), FolderSources(root, dir, videoFiles);
      BucketedAsWritten(SortedEntries(images, videos, le)).PushIsNotAFunction?
  {
    var images, videos := FolderSources(root, dir, imageFiles), FolderSources(root, dir, videoFiles);
    var es := Entries(images, videos);
    FolderEntries(root, dir, imageFiles, videoFiles);
    var sorted := SortedEntries(images, videos, le);
    assert |sorted| == |multiset(es)|;
    assert sorted[0] in multiset(es);
    assert !AvoidsInherited(sorted);
    BucketedAsWrittenAgrees(sorted);
  }

  /** A gallery with one image in a folder named `constructor`. */
  lemma ConstructorFolderThrows(le: (string, string) -> bool)
    ensures BucketedAsWritten(SortedEntries(FolderSources("../assets/gallery", "constructor", ["a.jpg"]), [], le)).PushIsNotAFunction?
  {
    ConstructorIsLowerCase();
    assert FolderSources("../assets/gallery", "constructor", []) == [];
    InheritedFolderThrows("../assets/gallery", "constructor", ["a.jpg"], [], le);
  }

  /** The lookup as written: `galleryByCategory[normalized] || []`. */
  datatype Lookup = Items(items: seq<Item>) | NotAnArray

  function GetLocalGalleryImagesAsWritten(index: CategoryIndex, category: string): (r: Lookup)
    ensures r.NotAnArray? <==> Lower(category) != "all" && Lower(category) !in index.buckets && Lower(category) in InheritedNames
  {
    var normalized := Lower(category);
    if normalized == "all" then Items(Flatten(index.order, index.buckets))
    else
      match GetProperty(index.buckets, normalized)
      case OwnArray(bucket) => Items(bucket)
      case InheritedMember => NotAnArray
      case Undefined => Items([])
  }

  /**
    Asking for `constructor` (in any casing) when no folder has that name
    yields the `Object` function as written, where the lookup on a map
    yields no items.
  */
  lemma LookupConstructorAsWritten(index: CategoryIndex, category: string)
    requires Lower(category) == "constructor"
    requires "constructor" !in index.buckets
    ensures GetLocalGalleryImagesAsWritten(index, category) == NotAnArray
    ensures GetLocalGalleryImages(index, category) == []
  {
  }

  /** Away from the inherited names the written lookup and the map lookup agree. */
  lemma LookupAsWrittenAgrees(index: CategoryIndex, category: string)
    requires Lower(category) !in InheritedNames || Lower(category) in index.buckets
    ensures GetLocalGalleryImagesAsWritten(index, category) == Items(GetLocalGalleryImages(index, category))
  {
  }
}
