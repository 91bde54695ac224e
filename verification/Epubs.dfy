/** epub/reader.go and epub/epub.go: which files of an EPUB stay in clear, and the binary search that answers it. */
module Epubs {
  import opened Options
  import opened Bytes
  import opened Streams
  import opened Urls

  // ----- the order of strings -----

  /** Byte-wise lexicographic order, as Go compares strings. */
  predicate Less(a: Path, b: Path)
    decreases |a|
  {
    b != [] && (a == [] || a[0] < b[0] || (a[0] == b[0] && Less(a[1..], b[1..])))
  }

  lemma {:induction false} LessIsTransitive(a: Path, b: Path, c: Path)
    requires Less(a, b) && Less(b, c)
    ensures Less(a, c)
    decreases |a|
  {
    if a != [] && a[0] == b[0] == c[0] {
      LessIsTransitive(a[1..], b[1..], c[1..]);
    }
  }

  lemma {:induction false} LessIsTotal(a: Path, b: Path)
    ensures Less(a, b) || a == b || Less(b, a)
    ensures !(Less(a, b) && Less(b, a)) && !Less(a, a)
    decreases |a|
  {
    if a != [] && b != [] {
      LessIsTotal(a[1..], b[1..]);
      assert a == [a[0]] + a[1..] && b == [b[0]] + b[1..];
    }
    if a != [] {
      LessIsTotal(a[1..], a[1..]);
    }
  }

  predicate Sorted(s: seq<Path>) { forall i, j :: 0 <= i < j < |s| ==> !Less(s[j], s[i]) }

  /** sort.SearchStrings: the first index whose string is not before x. */
  method SearchStrings(s: seq<Path>, x: Path) returns (i: nat)
    requires Sorted(s)
    ensures i <= |s|
    ensures forall k :: 0 <= k < i ==> Less(s[k], x)
    ensures forall k :: i <= k < |s| ==> !Less(s[k], x)
  {
    var lo, hi := 0, |s|;
    while lo < hi
      invariant 0 <= lo <= hi <= |s|
      invariant forall k :: 0 <= k < lo ==> Less(s[k], x)
      invariant forall k :: hi <= k < |s| ==> !Less(s[k], x)
    {
      var h := (lo + hi) / 2;
      if Less(s[h], x) {
        forall k | lo <= k <= h ensures Less(s[k], x) {
          BeforeIsLess(s, k, h, x);
        }
        lo := h + 1;
      } else {
        forall k | h <= k < hi ensures !Less(s[k], x) {
          if Less(s[k], x) {
            BeforeIsLess(s, h, k, x);
          }
        }
        hi := h;
      }
    }
    i := lo;
  }

  lemma BeforeIsLess(s: seq<Path>, k: nat, h: nat, x: Path)
    requires Sorted(s) && k <= h < |s| && Less(s[h], x)
    ensures Less(s[k], x)
  {
    if k < h {
      LessIsTotal(s[k], s[h]);
      if Less(s[k], s[h]) {
        LessIsTransitive(s[k], s[h], x);
      }
    }
  }

  /** sort.Strings: an ordered permutation. */
  method SortStrings(s: seq<Path>) returns (sorted: seq<Path>)
    ensures Sorted(sorted) && multiset(sorted) == multiset(s)
  {
    sorted := [];
    for n := 0 to |s|
      invariant Sorted(sorted) && multiset(sorted) == multiset(s[..n])
    {
      var i := SearchStrings(sorted, s[n]);
      assert sorted == sorted[..i] + sorted[i..];
      assert s[..n + 1] == s[..n] + [s[n]];
      sorted := InsertAt(sorted, i, s[n]);
    }
    assert s[..|s|] == s;
  }

  function InsertAt(s: seq<Path>, i: nat, x: Path): (t: seq<Path>)
    requires Sorted(s) && i <= |s|
    requires forall k :: 0 <= k < i ==> Less(s[k], x)
    requires forall k :: i <= k < |s| ==> !Less(s[k], x)
    ensures Sorted(t) && multiset(t) == multiset(s) + multiset{x}
  {
    var t := s[..i] + [x] + s[i..];
    assert s == s[..i] + s[i..];
    assert Sorted(t) by {
      forall p, q | 0 <= p < q < |t| ensures !Less(t[q], t[p]) {
        if q == i {
          LessIsTotal(s[p], x);
        }
      }
    }
    t
  }

  // ----- the publication -----

  /** What a reader delivers, and whether it ends with EOF. */
  datatype Stream = Stream(chunks: seq<seq<byte>>, complete: bool)

  function Delivered(s: Stream): (r: seq<byte>) { Flat(s.chunks) }

  datatype Resource = Resource(path: Path, contentType: string, originalSize: nat, storageMethod: nat, contents: Stream)

  datatype Epub = Epub(resources: seq<Resource>, cleartext: seq<Path>)

  /** An item of a package document, its href already joined to the base path of the package. */
  datatype Item = Item(id: string, properties: string, mediaType: string, path: Path)

  /** A package document: the content of its "cover" metas and its items. */
  datatype Package = Package(covers: seq<string>, items: seq<Item>)

  /** A root file of the container; None: its package document cannot be opened, read or parsed. */
  datatype RootFile = RootFile(fullPath: Path, package: Option<Package>)

  datatype ZipFile = ZipFile(isDir: bool, opens: bool, resource: Resource)

  /** An EPUB archive; rootFiles is None when the container is missing, cannot be opened or is unreadable. */
  datatype Archive = Archive(rootFiles: Option<seq<RootFile>>, files: seq<ZipFile>)

  const META_INF: Path := [77, 69, 84, 65, 45, 73, 78, 70]
  const MIMETYPE: Path := [109, 105, 109, 101, 116, 121, 112, 101]
  /** META-INF/encryption.xml */
  const ENCRYPTION_FILE: Path := META_INF + [47, 101, 110, 99, 114, 121, 112, 116, 105, 111, 110, 46, 120, 109, 108]

  predicate Contains(s: string, part: string) { part <= s || (s != [] && Contains(s[1..], part)) }

  function CoverId(p: Package): (r: string) {
    if p.covers == [] then "cover-image" else p.covers[|p.covers| - 1]
  }

  /** Cover, navigation document, NCX and page map. */
  predicate StaysClear(p: Package, item: Item) {
    || Contains(item.properties, "cover-image")
    || item.id == CoverId(p)
    || Contains(item.properties, "nav")
    || item.mediaType == "application/x-dtbncx+xml"
    || item.mediaType == "application/oebps-page-map+xml"
  }

  /** The first file of a path. */
  function FileInZip(files: seq<ZipFile>, path: Path): (f: Option<ZipFile>) {
    if files == [] then None
    else
      var before := FileInZip(files[..|files| - 1], path);
      if before.Some? then before
      else if files[|files| - 1].resource.path == path then Some(files[|files| - 1]) else None
  }

  predicate IsResource(f: ZipFile) { !f.isDir && f.resource.path != ENCRYPTION_FILE && f.resource.path != MIMETYPE }

  /** Everything that is looked for is there, and everything that is opened opens. */
  predicate Readable(a: Archive) {
    && a.rootFiles.Some?
    && (forall i :: 0 <= i < |a.rootFiles.value| ==>
          FileInZip(a.files, a.rootFiles.value[i].fullPath).Some? && a.rootFiles.value[i].package.Some?)
    && (FileInZip(a.files, ENCRYPTION_FILE).Some? ==> FileInZip(a.files, ENCRYPTION_FILE).value.opens)
    && forall i :: 0 <= i < |a.files| && IsResource(a.files[i]) ==> a.files[i].opens
  }

  /** The files that must not be encrypted. */
  predicate MustStayClear(a: Archive, path: Path)
    requires Readable(a)
  {
    || ClearByPackage(a.rootFiles.value, path)
    || exists i :: 0 <= i < |a.files| && !a.files[i].isDir && a.files[i].resource.path == path && META_INF <= path
  }

  predicate ClearByPackage(roots: seq<RootFile>, path: Path) {
    exists i :: 0 <= i < |roots| && ClearByRoot(roots[i], path)
  }

  predicate ClearByRoot(r: RootFile, path: Path) {
    || path == r.fullPath
    || (r.package.Some? && ClearByItem(r.package.value, path))
  }

  predicate ClearByItem(p: Package, path: Path) {
    exists k :: 0 <= k < |p.items| && StaysClear(p, p.items[k]) && p.items[k].path == path
  }

  // ----- the Go code -----

  method FindFileInZip(a: Archive, path: Path) returns (found: Option<ZipFile>)
    ensures found == FileInZip(a.files, path)
  {
    found := None;
    var i := 0;
    while i < |a.files| && found.None?
      invariant i <= |a.files| && found == FileInZip(a.files[..i], path)
    {
      assert a.files[..i + 1] == a.files[..i] + [a.files[i]];
      if a.files[i].resource.path == path {
        found := Some(a.files[i]);
      }
      i := i + 1;
    }
    FoundIsFirst(a.files, i, path);
  }

  lemma {:induction false} FoundIsFirst(files: seq<ZipFile>, n: nat, path: Path)
    requires n <= |files| && (FileInZip(files[..n], path).Some? || n == |files|)
    ensures FileInZip(files, path) == FileInZip(files[..n], path)
  {
    if n == |files| {
      assert files[..n] == files;
    } else {
      assert files[..|files| - 1][..n] == files[..n];
      FoundIsFirst(files[..|files| - 1], n, path);
    }
  }

  method AddCleartextResources(cleartext: seq<Path>, p: Package) returns (more: seq<Path>)
    ensures forall path :: path in more <==> path in cleartext || ClearByItem(p, path)
  {
    more := cleartext;
    var coverImageID := "cover-image";
    for i := 0 to |p.covers|
      invariant coverImageID == CoverId(Package(p.covers[..i], p.items))
    {
      coverImageID := p.covers[i];
    }
    assert p.covers[..|p.covers|] == p.covers;
    for n := 0 to |p.items|
      invariant forall path :: path in more <==>
                  path in cleartext || exists k :: 0 <= k < n && StaysClear(p, p.items[k]) && p.items[k].path == path
    {
      var item := p.items[n];
      if Contains(item.properties, "cover-image") || item.id == coverImageID || Contains(item.properties, "nav")
         || item.mediaType == "application/x-dtbncx+xml" || item.mediaType == "application/oebps-page-map+xml"
      {
        more := more + [item.path];
      }
    }
  }

  /** Read: collects and sorts the clear-text paths, and lists the resources; None is an error. */
  method Read(a: Archive) returns (ep: Option<Epub>)
    ensures ep.Some? <==> Readable(a)
    ensures ep.Some? ==> Sorted(ep.value.cleartext)
    ensures ep.Some? ==> forall path :: path in ep.value.cleartext <==> MustStayClear(a, path)
    ensures ep.Some? ==> ep.value.resources == ResourcesOf(a.files)
  {
    if a.rootFiles.None? {
      return None;
    }
    var roots := a.rootFiles.value;
    var cleartext: seq<Path> := [];
    for n := 0 to |roots|
      invariant forall i :: 0 <= i < n ==> FileInZip(a.files, roots[i].fullPath).Some? && roots[i].package.Some?
      invariant forall path :: path in cleartext <==> ClearByPackage(roots[..n], path)
    {
      ghost var before := cleartext;
      cleartext := cleartext + [roots[n].fullPath];
      var found := FindFileInZip(a, roots[n].fullPath);
      if found.None? || roots[n].package.None? {
        return None;
      }
      cleartext := AddCleartextResources(cleartext, roots[n].package.value);
      assert roots[..n + 1] == roots[..n] + [roots[n]];
      forall path ensures path in cleartext <==> ClearByPackage(roots[..n + 1], path) {
        assert path in cleartext <==> path in before || ClearByRoot(roots[n], path);
        ClearByOneMore(roots[..n], roots[n], path);
      }
    }
    assert roots[..|roots|] == roots;
    var encryption := FindFileInZip(a, ENCRYPTION_FILE);
    if encryption.Some? && !encryption.value.opens {
      return None;
    }
    var resources: seq<Resource> := [];
    ghost var byPackage := cleartext;
    for n := 0 to |a.files|
      invariant resources == ResourcesOf(a.files[..n])
      invariant forall i :: 0 <= i < n && IsResource(a.files[i]) ==> a.files[i].opens
      invariant forall path :: path in cleartext <==>
                  path in byPackage || exists i :: 0 <= i < n && !a.files[i].isDir && a.files[i].resource.path == path && META_INF <= path
    {
      var file := a.files[n];
      assert a.files[..n + 1] == a.files[..n] + [file];
      if file.isDir {
        continue;
      }
      if file.resource.path != ENCRYPTION_FILE && file.resource.path != MIMETYPE {
        if !file.opens {
          return None;
        }
        resources := resources + [file.resource];
      }
      if META_INF <= file.resource.path {
        cleartext := cleartext + [file.resource.path];
      }
    }
    assert a.files[..|a.files|] == a.files;
    var sorted := SortStrings(cleartext);
    forall path ensures path in sorted <==> path in cleartext {
      assert path in multiset(sorted) <==> path in multiset(cleartext);
    }
    ep := Some(Epub(resources, sorted));
  }

  lemma ClearByOneMore(roots: seq<RootFile>, r: RootFile, path: Path)
    ensures ClearByPackage(roots + [r], path) <==> ClearByPackage(roots, path) || ClearByRoot(r, path)
  {
    if ClearByPackage(roots, path) {
      var i :| 0 <= i < |roots| && ClearByRoot(roots[i], path);
      assert (roots + [r])[i] == roots[i];
    }
    if ClearByRoot(r, path) {
      assert (roots + [r])[|roots|] == r;
    }
  }

  /** Every file but directories, the mimetype and the encryption manifest, in the order of the archive. */
  function ResourcesOf(files: seq<ZipFile>): (rs: seq<Resource>) {
    if files == [] then []
    else
      var init, last := ResourcesOf(files[..|files| - 1]), files[|files| - 1];
      if IsResource(last) then init + [last.resource] else init
  }

  /** CanEncrypt: a binary search in the sorted clear-text paths. */
  method CanEncrypt(ep: Epub, file: Path) returns (can: bool)
    requires Sorted(ep.cleartext)
    ensures can <==> file !in ep.cleartext
  {
    var i := SearchStrings(ep.cleartext, file);
    can := i >= |ep.cleartext| || ep.cleartext[i] != file;
    FoundBySearch(ep.cleartext, file, i);
  }

  lemma FoundBySearch(s: seq<Path>, x: Path, i: nat)
    requires Sorted(s) && i <= |s|
    requires forall k :: 0 <= k < i ==> Less(s[k], x)
    requires forall k :: i <= k < |s| ==> !Less(s[k], x)
    ensures x in s <==> i < |s| && s[i] == x
  {
    LessIsTotal(x, x);
    if x in s {
      var k :| 0 <= k < |s| && s[k] == x;
      LessIsTotal(s[i], x);
    }
  }

  // ----- what stays clear and what is a resource, spelled out -----

  /** The bytes of a text in ASCII. */
  predicate Spells(path: Path, text: string) {
    |path| == |text| && forall i :: 0 <= i < |path| ==> path[i] as int as char == text[i]
  }

  lemma NamesAreSpelled()
    ensures Spells(META_INF, "META-INF") && Spells(MIMETYPE, "mimetype") && Spells(ENCRYPTION_FILE, "META-INF/encryption.xml")
  {
  }

  /** A part of a text, at some place. */
  lemma {:induction false} ContainsAtSomePlace(s: string, part: string)
    ensures Contains(s, part) <==> exists k :: 0 <= k <= |s| && part <= s[k..]
  {
    if part <= s {
      assert s[0..] == s;
    } else if s != [] {
      ContainsAtSomePlace(s[1..], part);
      if k :| 0 <= k <= |s[1..]| && part <= s[1..][k..] {
        assert s[k + 1..] == s[1..][k..];
      }
      if k :| 0 <= k <= |s| && part <= s[k..] {
        assert k > 0 by { assert s[0..] == s; }
        assert s[1..][k - 1..] == s[k..];
      }
    }
  }

  /** The cover image, by property or by the last cover meta (by the id "cover-image" without one), the navigation document, the
      NCX and the page map stay in clear, and no other item. */
  lemma ItemsThatStayClear(p: Package, item: Item)
    ensures StaysClear(p, item) <==>
            || Contains(item.properties, "cover-image")
            || Contains(item.properties, "nav")
            || item.id == (if p.covers == [] then "cover-image" else p.covers[|p.covers| - 1])
            || item.mediaType == "application/x-dtbncx+xml"
            || item.mediaType == "application/oebps-page-map+xml"
  {
  }

  /** A path stays in clear exactly when it is that of a package document, of an item that stays clear, or of a file in META-INF. */
  lemma PathsThatStayClear(a: Archive, path: Path)
    requires Readable(a)
    ensures MustStayClear(a, path) <==>
            || (exists i :: 0 <= i < |a.rootFiles.value| && a.rootFiles.value[i].fullPath == path)
            || (exists i, k :: 0 <= i < |a.rootFiles.value| && 0 <= k < |a.rootFiles.value[i].package.value.items|
                               && StaysClear(a.rootFiles.value[i].package.value, a.rootFiles.value[i].package.value.items[k])
                               && a.rootFiles.value[i].package.value.items[k].path == path)
            || (exists i :: 0 <= i < |a.files| && !a.files[i].isDir && a.files[i].resource.path == path && META_INF <= path)
  {
    var roots := a.rootFiles.value;
    if ClearByPackage(roots, path) {
      var i :| 0 <= i < |roots| && ClearByRoot(roots[i], path);
      if roots[i].fullPath != path {
        assert ClearByItem(roots[i].package.value, path);
      }
    }
    if i :| 0 <= i < |roots| && roots[i].fullPath == path {
      assert ClearByRoot(roots[i], path);
    }
    if i, k :| 0 <= i < |roots| && 0 <= k < |roots[i].package.value.items|
               && StaysClear(roots[i].package.value, roots[i].package.value.items[k]) && roots[i].package.value.items[k].path == path {
      assert ClearByItem(roots[i].package.value, path);
      assert ClearByRoot(roots[i], path);
    }
    hide StaysClear;
  }

  /** The resources are the files that are no directories, mimetype and encryption.xml left out. */
  lemma {:induction false} ResourcesAreFiles(files: seq<ZipFile>, r: Resource)
    ensures r in ResourcesOf(files) <==>
            exists i :: 0 <= i < |files| && files[i].resource == r && !files[i].isDir
                        && !Spells(r.path, "mimetype") && !Spells(r.path, "META-INF/encryption.xml")
  {
    SpelledOnce(r.path);
    hide Spells, ENCRYPTION_FILE, MIMETYPE;
    if files != [] {
      var init, last := files[..|files| - 1], files[|files| - 1];
      ResourcesAreFiles(init, r);
      assert forall i :: 0 <= i < |init| ==> init[i] == files[i];
      assert r in ResourcesOf(files) <==> r in ResourcesOf(init) || (IsResource(last) && last.resource == r);
    }
  }

  lemma SpelledOnce(path: Path)
    ensures Spells(path, "mimetype") <==> path == MIMETYPE
    ensures Spells(path, "META-INF/encryption.xml") <==> path == ENCRYPTION_FILE
  {
    NamesAreSpelled();
    SameSpelling(path, MIMETYPE, "mimetype");
    SameSpelling(path, ENCRYPTION_FILE, "META-INF/encryption.xml");
  }

  lemma SameSpelling(p: Path, q: Path, text: string)
    requires Spells(q, text)
    ensures Spells(p, text) <==> p == q
  {
    if Spells(p, text) {
      forall i | 0 <= i < |p| ensures p[i] == q[i] {
        assert p[i] as int as char == text[i] && q[i] as int as char == text[i];
      }
    }
  }

  /** Of several files of one path the first is found. */
  lemma {:induction false} FirstFileIsFound(files: seq<ZipFile>, i: nat)
    requires i < |files| && forall j :: 0 <= j < i ==> files[j].resource.path != files[i].resource.path
    ensures FileInZip(files, files[i].resource.path) == Some(files[i])
  {
    NoFileInZip(files[..|files| - 1], files[i].resource.path);
    if i < |files| - 1 {
      FirstFileIsFound(files[..|files| - 1], i);
    }
  }

  lemma {:induction false} NoFileInZip(files: seq<ZipFile>, path: Path)
    ensures FileInZip(files, path).None? <==> forall i :: 0 <= i < |files| ==> files[i].resource.path != path
  {
    if files != [] {
      NoFileInZip(files[..|files| - 1], path);
    }
  }
}
