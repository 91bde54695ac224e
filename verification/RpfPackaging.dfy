/** pack/pack.go, Process, over pack/rwppackage.go: encrypts the reading order of a Readium Package. */
module RpfPackaging {
  import opened Options
  import opened Bytes
  import opened Streams
  import opened Urls
  import opened Cbc
  import Epubs

  datatype EncryptedInfo = EncryptedInfo(algorithm: string, originalLength: int)

  /** The properties of a link; `layout` stands for those that have nothing to do with encryption. */
  datatype Properties = Properties(layout: string, encrypted: Option<EncryptedInfo>)

  datatype Link = Link(href: Path, mediaType: string, properties: Option<Properties>)

  /** A file of the archive: whether it opens, what it delivers, and whether it closes without an error. */
  datatype ZipEntry = ZipEntry(name: Path, storageMethod: nat, size: int, opens: bool, contents: Epubs.Stream, closes: bool)

  datatype Resource = Resource(file: ZipEntry, isEncrypted: bool, contentType: string)

  datatype Written = Written(name: Path, storageMethod: nat, body: seq<byte>)

  predicate IsMarked(l: Link) { l.properties.Some? && l.properties.value.encrypted.Some? }

  // ----- what the reader lists -----

  /** The index of the archive: of two files with one name, the later one. */
  function FileNamed(files: seq<ZipEntry>, name: Path): (f: Option<ZipEntry>)
    ensures f.Some? ==> f.value in files && f.value.name == name
  {
    if files == [] then None
    else if files[|files| - 1].name == name then Some(files[|files| - 1])
    else FileNamed(files[..|files| - 1], name)
  }

  /** Of several files of one name it is the last. */
  lemma {:induction false} FileNamedIsLast(files: seq<ZipEntry>, i: nat)
    requires i < |files| && forall j :: i < j < |files| ==> files[j].name != files[i].name
    ensures FileNamed(files, files[i].name) == Some(files[i])
  {
    if i < |files| - 1 {
      FileNamedIsLast(files[..|files| - 1], i);
    }
  }

  lemma {:induction false} NoFileNamed(files: seq<ZipEntry>, name: Path)
    ensures FileNamed(files, name).None? <==> forall i :: 0 <= i < |files| ==> files[i].name != name
  {
    if files != [] {
      NoFileNamed(files[..|files| - 1], name);
    }
  }

  /** The name an href stands for; a malformed href gives the empty name. */
  function NameOf(href: Path): (r: Path) {
    var u := QueryUnescape(href);
    if u.Some? then u.value else []
  }

  /** A malformed href stands for the empty name, any other one for what it unescapes to. */
  lemma NameIsUnescaped(href: Path)
    ensures QueryUnescape(href) == None ==> NameOf(href) == []
    ensures QueryUnescape(href) != None ==> QueryUnescape(href) == Some(NameOf(href))
  {
  }

  predicate HasFile(files: seq<ZipEntry>, l: Link) { FileNamed(files, NameOf(l.href)).Some? }

  /** The links of the reading order that have a file, in order. */
  function ResourcesOf(files: seq<ZipEntry>, order: seq<Link>): (rs: seq<Resource>)
  {
    if order == [] then []
    else
      var init, l := ResourcesOf(files, order[..|order| - 1]), order[|order| - 1];
      if HasFile(files, l) then init + [Resource(FileNamed(files, NameOf(l.href)).value, IsMarked(l), l.mediaType)] else init
  }

  // ----- what the writer does to its reading order -----

  predicate HasHref(order: seq<Link>, path: Path) { exists i :: 0 <= i < |order| && order[i].href == path }

  function Marked(l: Link, size: int): (r: Link) {
    l.(properties := Some(Properties(if l.properties.Some? then l.properties.value.layout else "", Some(EncryptedInfo(SIGNATURE, size)))))
  }

  /** Marks the first link with a path. */
  function MarkFirst(order: seq<Link>, path: Path, size: int): (r: seq<Link>)
    ensures |r| == |order|
  {
    if order == [] then []
    else if order[0].href == path then [Marked(order[0], size)] + order[1..]
    else [order[0]] + MarkFirst(order[1..], path, size)
  }

  function AddMissing(order: seq<Link>, path: Path, mediaType: string): (r: seq<Link>) {
    if HasHref(order, path) then order else order + [Link(path, mediaType, None)]
  }

  /** The reading order after one resource is processed. */
  function Touched(order: seq<Link>, r: Resource): (q: seq<Link>) {
    var added := AddMissing(order, r.file.name, r.contentType);
    if r.isEncrypted then added else MarkFirst(added, r.file.name, r.file.size)
  }

  /** The reading order after all the resources. */
  function After(order: seq<Link>, rs: seq<Resource>): (r: seq<Link>) {
    if rs == [] then order else Touched(After(order, rs[..|rs| - 1]), rs[|rs| - 1])
  }

  // ----- main results -----

  predicate FirstOfItsHref(order: seq<Link>, i: nat)
    requires i < |order|
  {
    forall j :: 0 <= j < i ==> order[j].href != order[i].href
  }

  lemma {:induction false} MarkFirstFound(order: seq<Link>, path: Path, size: int, i: nat)
    requires i <= |order| && forall j :: 0 <= j < i ==> order[j].href != path
    ensures i < |order| && order[i].href == path ==> MarkFirst(order, path, size) == order[i := Marked(order[i], size)]
    ensures i == |order| ==> MarkFirst(order, path, size) == order
  {
    if i > 0 {
      forall j | 0 <= j < i - 1 ensures order[1..][j].href != path {
        assert order[1..][j] == order[j + 1];
      }
      MarkFirstFound(order[1..], path, size, i - 1);
    }
  }

  lemma {:induction false} MarkFirstAt(order: seq<Link>, path: Path, size: int, i: nat)
    requires i < |order|
    ensures MarkFirst(order, path, size)[i] ==
            if order[i].href == path && FirstOfItsHref(order, i) then Marked(order[i], size) else order[i]
  {
    if i > 0 {
      if order[0].href == path {
        assert ([Marked(order[0], size)] + order[1..])[i] == order[i];
      } else {
        MarkFirstAt(order[1..], path, size, i - 1);
        assert FirstOfItsHref(order[1..], i - 1) && order[i].href == path ==> FirstOfItsHref(order, i) by {
          forall j | 0 <= j < i && FirstOfItsHref(order[1..], i - 1) && order[i].href == path ensures order[j].href != order[i].href {
            if j > 0 { assert order[1..][j - 1] == order[j]; }
          }
        }
        assert FirstOfItsHref(order, i) ==> FirstOfItsHref(order[1..], i - 1) by {
          forall j | 0 <= j < i - 1 && FirstOfItsHref(order, i) ensures order[1..][j].href != order[i].href {
            assert order[1..][j] == order[j + 1];
          }
        }
      }
    }
  }

  /** An unmarked resource has this path. */
  predicate Encrypts(rs: seq<Resource>, path: Path) {
    rs != [] && (Encrypts(rs[..|rs| - 1], path) || (!rs[|rs| - 1].isEncrypted && rs[|rs| - 1].file.name == path))
  }

  lemma TouchedAt(order: seq<Link>, r: Resource, i: nat)
    requires i < |order|
    ensures i < |Touched(order, r)|
    ensures Touched(order, r)[i] ==
            if !r.isEncrypted && order[i].href == r.file.name && FirstOfItsHref(order, i) then Marked(order[i], r.file.size) else order[i]
  {
    var added := AddMissing(order, r.file.name, r.contentType);
    MarkFirstAt(added, r.file.name, r.file.size, i);
    assert added[..i + 1] == order[..i + 1];
    SamePrefixFirst(order, added, i);
  }

  lemma SamePrefixFirst(a: seq<Link>, b: seq<Link>, i: nat)
    requires i < |a| && i < |b| && forall j :: 0 <= j <= i ==> a[j].href == b[j].href
    ensures FirstOfItsHref(a, i) <==> FirstOfItsHref(b, i)
  {
  }

  predicate KeepsHrefs(order: seq<Link>, result: seq<Link>) {
    |order| <= |result| && forall j :: 0 <= j < |order| ==> result[j].href == order[j].href
  }

  lemma {:induction false} HrefsAfter(order: seq<Link>, rs: seq<Resource>)
    ensures KeepsHrefs(order, After(order, rs))
  {
    if rs != [] {
      HrefsAfter(order, rs[..|rs| - 1]);
      var before := After(order, rs[..|rs| - 1]);
      forall j | 0 <= j < |order| ensures j < |After(order, rs)| && After(order, rs)[j].href == order[j].href {
        TouchedAt(before, rs[|rs| - 1], j);
      }
      TouchedGrows(before, rs[|rs| - 1]);
    }
  }

  lemma TouchedGrows(order: seq<Link>, r: Resource)
    ensures |Touched(order, r)| == if HasHref(order, r.file.name) then |order| else |order| + 1
  {
  }

  predicate AreFiles(files: seq<ZipEntry>, rs: seq<Resource>) {
    forall k :: 0 <= k < |rs| ==> FileNamed(files, rs[k].file.name) == Some(rs[k].file)
  }

  /** For any reading order whatsoever: existing links keep their place, href, type and other properties, and link i is
      marked anew exactly when it is the first of its href and an unmarked resource has this href as its file name. */
  lemma {:induction false} LinksAfter(files: seq<ZipEntry>, order: seq<Link>, rs: seq<Resource>, i: nat)
    requires i < |order| && AreFiles(files, rs)
    ensures i < |After(order, rs)|
    ensures After(order, rs)[i] ==
            if FirstOfItsHref(order, i) && Encrypts(rs, order[i].href) && FileNamed(files, order[i].href).Some?
            then Marked(order[i], FileNamed(files, order[i].href).value.size) else order[i]
    ensures FirstOfItsHref(order, i) && Encrypts(rs, order[i].href) && FileNamed(files, order[i].href).Some? ==>
              IsMarkOf(order[i], After(order, rs)[i], FileNamed(files, order[i].href).value.size)
  {
    if FileNamed(files, order[i].href).Some? {
      MarkedIsMark(order[i], Marked(order[i], FileNamed(files, order[i].href).value.size), FileNamed(files, order[i].href).value.size);
    }
    hide IsMarkOf;
    HrefsAfter(order, rs);
    if rs != [] {
      hide AddMissing, MarkFirst, Touched, HasHref;
      var init, r := rs[..|rs| - 1], rs[|rs| - 1];
      LinksAfter(files, order, init, i);
      HrefsAfter(order, init);
      TouchedAt(After(order, init), r, i);
      SamePrefixFirst(order, After(order, init), i);
      assert FileNamed(files, rs[|rs| - 1].file.name) == Some(r.file);
    }
  }

  lemma {:induction false} ResourcesAreFiles(files: seq<ZipEntry>, order: seq<Link>)
    ensures AreFiles(files, ResourcesOf(files, order))
  {
    if order != [] {
      ResourcesAreFiles(files, order[..|order| - 1]);
    }
  }

  lemma EncryptsMore(rs: seq<Resource>, r: Resource, path: Path)
    ensures Encrypts(rs + [r], path) <==> Encrypts(rs, path) || (!r.isEncrypted && r.file.name == path)
  {
    assert (rs + [r])[..|rs|] == rs;
  }

  /** The link is unmarked and stands for the file of this name. */
  predicate StandsUnmarkedFor(files: seq<ZipEntry>, l: Link, path: Path) {
    !IsMarked(l) && HasFile(files, l) && NameOf(l.href) == path
  }

  predicate SomeStandsUnmarkedFor(files: seq<ZipEntry>, order: seq<Link>, path: Path) {
    exists k :: 0 <= k < |order| && StandsUnmarkedFor(files, order[k], path)
  }

  lemma OneMoreStands(files: seq<ZipEntry>, order: seq<Link>, path: Path)
    requires order != []
    ensures SomeStandsUnmarkedFor(files, order, path) <==>
            SomeStandsUnmarkedFor(files, order[..|order| - 1], path) || StandsUnmarkedFor(files, order[|order| - 1], path)
  {
    hide StandsUnmarkedFor;
    var init := order[..|order| - 1];
    if SomeStandsUnmarkedFor(files, init, path) {
      var k :| 0 <= k < |init| && StandsUnmarkedFor(files, init[k], path);
      assert order[k] == init[k];
    }
    if k :| 0 <= k < |order| && StandsUnmarkedFor(files, order[k], path) && k < |init| {
      assert init[k] == order[k];
    }
  }

  /** A path is that of an unmarked resource exactly when some unmarked link with a file stands for it. */
  lemma {:induction false} EncryptsByLinks(files: seq<ZipEntry>, order: seq<Link>, path: Path)
    ensures Encrypts(ResourcesOf(files, order), path) <==> SomeStandsUnmarkedFor(files, order, path)
  {
    if order != [] {
      hide SomeStandsUnmarkedFor, NameOf, FileNamed, IsMarked, Encrypts;
      var init, l := order[..|order| - 1], order[|order| - 1];
      EncryptsByLinks(files, init, path);
      OneMoreStands(files, order, path);
      if HasFile(files, l) {
        EncryptsMore(ResourcesOf(files, init), Resource(FileNamed(files, NameOf(l.href)).value, IsMarked(l), l.mediaType), path);
      }
    } else {
      assert !SomeStandsUnmarkedFor(files, order, path);
    }
  }

  predicate DistinctHrefs(order: seq<Link>) { forall i, j :: 0 <= i < j < |order| ==> order[i].href != order[j].href }

  /** The hrefs that unescaping leaves alone. */
  predicate PlainHrefs(order: seq<Link>) { forall i :: 0 <= i < |order| ==> NameOf(order[i].href) == order[i].href }

  /** The link m is l with a mark: href, media type and layout are the same, and the encryption properties name the algorithm
      and the original length. */
  predicate IsMarkOf(l: Link, m: Link, originalLength: int) {
    && m.href == l.href && m.mediaType == l.mediaType
    && m.properties.Some?
    && m.properties.value.layout == (if l.properties.Some? then l.properties.value.layout else "")
    && m.properties.value.encrypted == Some(EncryptedInfo("http://www.w3.org/2001/04/xmlenc#aes256-cbc", originalLength))
  }

  lemma MarkedIsMark(l: Link, m: Link, size: int)
    ensures IsMarkOf(l, m, size) <==> m == Marked(l, size)
  {
  }

  /** The marking Process is for: exactly the previously unmarked links whose file exists get a mark with its size, all others
      stay as they were. */
  predicate MarkedAsIntended(files: seq<ZipEntry>, order: seq<Link>, result: seq<Link>) {
    && |result| == |order|
    && forall i :: 0 <= i < |order| ==>
         if !IsMarked(order[i]) && HasFile(files, order[i])
         then IsMarkOf(order[i], result[i], FileNamed(files, NameOf(order[i].href)).value.size)
         else result[i] == order[i]
  }

  lemma MarkedAsIntendedByLink(files: seq<ZipEntry>, order: seq<Link>, result: seq<Link>)
    ensures MarkedAsIntended(files, order, result) <==>
            |result| == |order| && forall i :: 0 <= i < |order| ==> result[i] == Intended(files, order[i])
  {
    if |result| == |order| {
      forall i | 0 <= i < |order| && HasFile(files, order[i])
        ensures IsMarkOf(order[i], result[i], FileNamed(files, NameOf(order[i].href)).value.size)
                <==> result[i] == Marked(order[i], FileNamed(files, NameOf(order[i].href)).value.size)
      {
        MarkedIsMark(order[i], result[i], FileNamed(files, NameOf(order[i].href)).value.size);
      }
      hide IsMarkOf, Marked, FileNamed, NameOf;
    }
  }

  /** Nothing is added exactly when every file the reading order leads to is there under its own name as an href. */
  lemma NothingAddedExactly(files: seq<ZipEntry>, order: seq<Link>)
    ensures |After(order, ResourcesOf(files, order))| == |order| <==> AllNamesListed(files, order, order)
  {
    AddedExactly(order, ResourcesOf(files, order));
    ListedByLinks(files, order, order);
  }

  /** All the resources are listed under their own names. */
  predicate AllListed(order: seq<Link>, rs: seq<Resource>) {
    rs != [] ==> AllListed(order, rs[..|rs| - 1]) && HasHref(order, rs[|rs| - 1].file.name)
  }

  lemma {:induction false} AddedExactly(order: seq<Link>, rs: seq<Resource>)
    ensures |After(order, rs)| == |order| <==> AllListed(order, rs)
  {
    if rs != [] {
      hide AddMissing, MarkFirst, Touched;
      var init, r := rs[..|rs| - 1], rs[|rs| - 1];
      AddedExactly(order, init);
      HrefsAfter(order, init);
      TouchedGrows(After(order, init), r);
      if |After(order, init)| == |order| {
        SameHrefs(order, After(order, init), r.file.name);
      }
      assert After(order, rs) == Touched(After(order, init), r);
    }
  }

  lemma SameHrefs(a: seq<Link>, b: seq<Link>, path: Path)
    requires |a| == |b| && KeepsHrefs(a, b)
    ensures HasHref(a, path) <==> HasHref(b, path)
  {
  }

  lemma ListedMore(order: seq<Link>, rs: seq<Resource>, r: Resource)
    ensures AllListed(order, rs + [r]) <==> AllListed(order, rs) && HasHref(order, r.file.name)
  {
    assert (rs + [r])[..|rs|] == rs;
  }

  /** Every file the reading order leads to is listed in `all` under its own name. */
  predicate AllNamesListed(files: seq<ZipEntry>, all: seq<Link>, order: seq<Link>) {
    forall i :: 0 <= i < |order| && HasFile(files, order[i]) ==> HasHref(all, NameOf(order[i].href))
  }

  lemma OneMoreNamed(files: seq<ZipEntry>, all: seq<Link>, order: seq<Link>)
    requires order != []
    ensures AllNamesListed(files, all, order) <==>
            AllNamesListed(files, all, order[..|order| - 1])
            && (HasFile(files, order[|order| - 1]) ==> HasHref(all, NameOf(order[|order| - 1].href)))
  {
    hide HasFile, HasHref, NameOf;
    var init := order[..|order| - 1];
    if AllNamesListed(files, all, init) && (HasFile(files, order[|order| - 1]) ==> HasHref(all, NameOf(order[|order| - 1].href))) {
      forall i | 0 <= i < |order| && HasFile(files, order[i]) ensures HasHref(all, NameOf(order[i].href)) {
        assert i < |init| ==> init[i] == order[i];
      }
    }
    if AllNamesListed(files, all, order) {
      forall i | 0 <= i < |init| && HasFile(files, init[i]) ensures HasHref(all, NameOf(init[i].href)) {
        assert init[i] == order[i];
      }
    }
  }

  lemma {:induction false} ListedByLinks(files: seq<ZipEntry>, all: seq<Link>, order: seq<Link>)
    ensures AllListed(all, ResourcesOf(files, order)) <==> AllNamesListed(files, all, order)
  {
    if order != [] {
      hide HasHref, NameOf, FileNamed, IsMarked, AllNamesListed, AllListed;
      var init, l := order[..|order| - 1], order[|order| - 1];
      ListedByLinks(files, all, init);
      OneMoreNamed(files, all, order);
      if HasFile(files, l) {
        ListedMore(all, ResourcesOf(files, init), Resource(FileNamed(files, NameOf(l.href)).value, IsMarked(l), l.mediaType));
      }
    }
  }

  /** Link i leads to its file the way Process needs: a marked link finds its file listed, an unmarked one is the first of an
      href that unescaping leaves alone. */
  predicate LeadsPlainly(files: seq<ZipEntry>, order: seq<Link>, i: nat)
    requires i < |order|
  {
    HasFile(files, order[i]) ==>
      if IsMarked(order[i]) then HasHref(order, NameOf(order[i].href))
      else NameOf(order[i].href) == order[i].href && FirstOfItsHref(order, i)
  }

  predicate AllLeadPlainly(files: seq<ZipEntry>, order: seq<Link>) {
    forall i :: 0 <= i < |order| ==> LeadsPlainly(files, order, i)
  }

  /** Two first links of one href are one link. */
  lemma FirstIsOne(order: seq<Link>, i: nat, k: nat)
    requires i < |order| && k < |order| && order[i].href == order[k].href
    requires FirstOfItsHref(order, i) && FirstOfItsHref(order, k)
    ensures i == k
  {
  }

  /** What Process is to make of link i. */
  function Intended(files: seq<ZipEntry>, l: Link): (m: Link) {
    if !IsMarked(l) && HasFile(files, l) then Marked(l, FileNamed(files, NameOf(l.href)).value.size) else l
  }

  lemma PlainLinkIsMarked(files: seq<ZipEntry>, order: seq<Link>, i: nat)
    requires i < |order| && AllLeadPlainly(files, order)
    ensures i < |After(order, ResourcesOf(files, order))| && After(order, ResourcesOf(files, order))[i] == Intended(files, order[i])
  {
    var rs, l := ResourcesOf(files, order), order[i];
    ResourcesAreFiles(files, order);
    LinksAfter(files, order, rs, i);
    EncryptsByLinks(files, order, l.href);
    assert LeadsPlainly(files, order, i);
    hide NameOf, FileNamed, After, Encrypts, ResourcesOf;
    if !IsMarked(l) && HasFile(files, l) {
      assert StandsUnmarkedFor(files, order[i], l.href);
    } else if FirstOfItsHref(order, i) && SomeStandsUnmarkedFor(files, order, l.href) {
      var k :| 0 <= k < |order| && StandsUnmarkedFor(files, order[k], l.href);
      assert LeadsPlainly(files, order, k);
      FirstIsOne(order, i, k);
    }
  }

  /** An unmarked link that has to be unescaped and is marked all the same takes its mark from another such link, with a
      longer href. */
  lemma LongerLink(files: seq<ZipEntry>, order: seq<Link>, i: nat) returns (k: nat)
    requires i < |order| && !IsMarked(order[i]) && HasFile(files, order[i]) && NameOf(order[i].href) != order[i].href
    requires SomeStandsUnmarkedFor(files, order, order[i].href)
    ensures k < |order| && !IsMarked(order[k]) && HasFile(files, order[k]) && NameOf(order[k].href) != order[k].href
    ensures |order[k].href| > |order[i].href|
  {
    k :| 0 <= k < |order| && StandsUnmarkedFor(files, order[k], order[i].href);
    NameIsShorter(order[k].href);
  }

  /** A name that still has to be unescaped is shorter than the href it came from. */
  lemma NameIsShorter(href: Path)
    requires NameOf(NameOf(href)) != NameOf(href)
    ensures |NameOf(href)| < |href|
  {
    QueryUnescapeKeeps(NameOf(href));
    UnescapeShrinks(href);
    if PERCENT !in href {
      PlusesGo(href);
    }
  }

  lemma {:induction false} NoEscapedLink(files: seq<ZipEntry>, order: seq<Link>, i: nat, bound: nat)
    requires i < |order| && !IsMarked(order[i]) && HasFile(files, order[i])
    requires forall j :: 0 <= j < |order| ==> |order[j].href| <= bound
    requires forall j :: 0 <= j < |order| && !IsMarked(order[j]) && HasFile(files, order[j]) ==> SomeStandsUnmarkedFor(files, order, order[j].href)
    ensures NameOf(order[i].href) == order[i].href
    decreases bound - |order[i].href|
  {
    if NameOf(order[i].href) != order[i].href {
      var k := LongerLink(files, order, i);
      NoEscapedLink(files, order, k, bound);
    }
  }

  lemma {:induction false} LongestHref(order: seq<Link>) returns (bound: nat)
    ensures forall j :: 0 <= j < |order| ==> |order[j].href| <= bound
  {
    bound := 0;
    if order != [] {
      bound := LongestHref(order[..|order| - 1]);
      assert forall j :: 0 <= j < |order| - 1 ==> order[j] == order[..|order| - 1][j];
      if |order[|order| - 1].href| > bound {
        bound := |order[|order| - 1].href|;
      }
    }
  }

  /** Every unmarked link with a file that comes out marked is the first of an href that unescaping leaves alone. */
  lemma MarkedLinksArePlain(files: seq<ZipEntry>, order: seq<Link>, i: nat)
    requires i < |order| && !IsMarked(order[i]) && HasFile(files, order[i])
    requires |After(order, ResourcesOf(files, order))| >= |order|
    requires forall j :: 0 <= j < |order| && !IsMarked(order[j]) && HasFile(files, order[j]) ==>
                           IsMarked(After(order, ResourcesOf(files, order))[j])
    ensures LeadsPlainly(files, order, i)
  {
    var rs := ResourcesOf(files, order);
    ResourcesAreFiles(files, order);
    LinksAfter(files, order, rs, i);
    forall j | 0 <= j < |order| && !IsMarked(order[j]) && HasFile(files, order[j]) ensures SomeStandsUnmarkedFor(files, order, order[j].href) {
      LinksAfter(files, order, rs, j);
      EncryptsByLinks(files, order, order[j].href);
    }
    hide After, ResourcesOf, NameOf, SomeStandsUnmarkedFor;
    var bound := LongestHref(order);
    NoEscapedLink(files, order, i, bound);
  }

  /** For any reading order and any archive: Process marks what it is for, with the right lengths, and adds nothing, exactly
      when every marked link finds its file listed and every unmarked link with a file is the first of an href that
      unescaping leaves alone. */
  lemma MarkedAsIntendedExactly(files: seq<ZipEntry>, order: seq<Link>)
    ensures MarkedAsIntended(files, order, After(order, ResourcesOf(files, order))) <==> AllLeadPlainly(files, order)
  {
    var result := After(order, ResourcesOf(files, order));
    NothingAddedExactly(files, order);
    MarkedAsIntendedByLink(files, order, result);
    hide MarkedAsIntended;
    if AllLeadPlainly(files, order) {
      forall i | 0 <= i < |order| && HasFile(files, order[i]) ensures HasHref(order, NameOf(order[i].href)) {
        assert LeadsPlainly(files, order, i);
      }
      forall i | 0 <= i < |order| ensures result[i] == Intended(files, order[i]) {
        PlainLinkIsMarked(files, order, i);
      }
    }
    if MarkedAsIntended(files, order, result) {
      forall j | 0 <= j < |order| && !IsMarked(order[j]) && HasFile(files, order[j]) ensures IsMarked(result[j]) {
        assert result[j] == Intended(files, order[j]);
      }
      forall i | 0 <= i < |order| ensures LeadsPlainly(files, order, i) {
        if !IsMarked(order[i]) && HasFile(files, order[i]) {
          MarkedLinksArePlain(files, order, i);
        }
      }
    }
  }

  /** With distinct hrefs that unescaping leaves alone, Process marks what it is for and adds nothing. */
  lemma PlainOrdersAreMarkedAsIntended(files: seq<ZipEntry>, order: seq<Link>)
    requires DistinctHrefs(order) && PlainHrefs(order)
    ensures MarkedAsIntended(files, order, After(order, ResourcesOf(files, order)))
  {
    hide NameOf, FileNamed;
    forall i | 0 <= i < |order| ensures LeadsPlainly(files, order, i) {
      assert NameOf(order[i].href) == order[i].href;
    }
    MarkedAsIntendedExactly(files, order);
  }

  /** An href that must be unescaped: its file is encrypted under a new link, and the link itself stays unmarked. */
  lemma EscapedHrefIsNotMarked(file: ZipEntry, l: Link)
    requires NameOf(l.href) == file.name != l.href && !IsMarked(l)
    ensures
      var rs := ResourcesOf([file], [l]);
      && |After([l], rs)| == 2 && After([l], rs)[0] == l
      && IsMarkOf(Link(file.name, l.mediaType, None), After([l], rs)[1], file.size)
  {
    assert [l][..0] == [];
    var r := Resource(file, false, l.mediaType);
    assert ResourcesOf([file], [l]) == [r];
    var rs := [r];
    assert rs[..0] == [];
    assert After([l], rs) == Touched([l], r);
    var added := Link(file.name, l.mediaType, None);
    assert [l, added][1..] == [added] && [added][1..] == [];
    assert MarkFirst([added], file.name, file.size) == [Marked(added, file.size)];
    assert MarkFirst([l, added], file.name, file.size) == [l] + [Marked(added, file.size)];
  }

  /** An href that must be unescaped may be marked all the same: with the length of another file, for which a second such
      href stands. */
  lemma EscapedHrefTakesAnotherLength(f1: ZipEntry, f2: ZipEntry, l1: Link, l2: Link)
    requires NameOf(l1.href) == f1.name != l1.href && NameOf(l2.href) == f2.name == l1.href && !IsMarked(l1) && !IsMarked(l2)
    ensures
      var result := After([l1, l2], ResourcesOf([f1, f2], [l1, l2]));
      |result| >= 2 && IsMarkOf(l1, result[0], f2.size)
  {
    var files, order := [f1, f2], [l1, l2];
    var rs := ResourcesOf(files, order);
    assert FileNamed(files, f2.name) == Some(f2);
    assert StandsUnmarkedFor(files, order[1], f2.name);
    EncryptsByLinks(files, order, f2.name);
    ResourcesAreFiles(files, order);
    LinksAfter(files, order, rs, 0);
    HrefsAfter(order, rs);
  }

  /** Whatever the random bytes, decrypting a resource that Process encrypted gives back the file it read. */
  lemma EncryptedEntryReadsBack(c: Cipher, r: Resource, w: Written)
    requires WrittenFor(Some(c), r, w) && !r.isEncrypted
    ensures w.name == r.file.name && w.storageMethod == 0 && Decrypted(c, w.body) == Some(Epubs.Delivered(r.file.contents))
  {
    DecryptUndoesEncrypt(c, Epubs.Delivered(r.file.contents), w.body);
  }

  /** A resource that was marked already is in the output byte for byte, under its name and with its storage method. */
  lemma MarkedEntryIsCopied(c: Option<Cipher>, r: Resource, w: Written)
    requires WrittenFor(c, r, w) && r.isEncrypted
    ensures w.name == r.file.name && w.storageMethod == r.file.storageMethod && w.body == Epubs.Delivered(r.file.contents)
  {
  }

  // ----- the Go code -----

  class RpfWriter {
    var readingOrder: seq<Link>
    var written: seq<Written>

    constructor (readingOrder: seq<Link>)
      ensures this.readingOrder == readingOrder && written == []
    {
      this.readingOrder, written := readingOrder, [];
    }

    /** NewFile: an entry of the reading order is added if missing, whether the archive takes the file or not. */
    method NewFile(path: Path, contentType: string, slot: Slot) returns (ok: bool)
      modifies this`readingOrder
      ensures ok == slot.creates && readingOrder == AddMissing(old(readingOrder), path, contentType)
    {
      var found := false;
      for i := 0 to |readingOrder|
        invariant readingOrder == old(readingOrder)
        invariant !found && forall j :: 0 <= j < i ==> readingOrder[j].href != path
      {
        if path == readingOrder[i].href {
          found := true;
          break;
        }
      }
      if !found {
        readingOrder := readingOrder + [Link(path, contentType, None)];
      }
      ok := slot.creates;
    }

    method MarkAsEncrypted(path: Path, originalLength: int, algorithm: string)
      requires algorithm == SIGNATURE
      modifies this`readingOrder
      ensures readingOrder == MarkFirst(old(readingOrder), path, originalLength)
      ensures forall i :: 0 <= i < |readingOrder| ==>
                if old(readingOrder)[i].href == path && FirstOfItsHref(old(readingOrder), i)
                then IsMarkOf(old(readingOrder)[i], readingOrder[i], originalLength)
                else readingOrder[i] == old(readingOrder)[i]
    {
      forall i | 0 <= i < |readingOrder| ensures MarkFirst(readingOrder, path, originalLength)[i] ==
          if readingOrder[i].href == path && FirstOfItsHref(readingOrder, i) then Marked(readingOrder[i], originalLength) else readingOrder[i]
      {
        MarkFirstAt(readingOrder, path, originalLength, i);
      }
      hide MarkFirst;
      for i := 0 to |readingOrder|
        invariant readingOrder == old(readingOrder)
        invariant forall j :: 0 <= j < i ==> readingOrder[j].href != path
      {
        var link := readingOrder[i];
        if path == link.href {
          if link.properties.None? {
            link := link.(properties := Some(Properties("", None)));
          }
          link := link.(properties := Some(link.properties.value.(encrypted := Some(EncryptedInfo(algorithm, originalLength)))));
          MarkFirstFound(readingOrder, path, originalLength, i);
          readingOrder := readingOrder[i := link];
          return;
        }
      }
      MarkFirstFound(readingOrder, path, originalLength, |readingOrder|);
    }
  }

  /** The list of resources which may be encrypted. */
  method Resources(files: seq<ZipEntry>, order: seq<Link>) returns (resources: seq<Resource>)
    ensures resources == ResourcesOf(files, order)
  {
    resources := [];
    for n := 0 to |order|
      invariant resources == ResourcesOf(files, order[..n])
    {
      assert order[..n + 1] == order[..n] + [order[n]];
      var isEncrypted := order[n].properties.Some? && order[n].properties.value.encrypted.Some?;
      var name := NameOf(order[n].href);
      var file := FileNamed(files, name);
      if file.Some? {
        resources := resources + [Resource(file.value, isEncrypted, order[n].mediaType)];
      }
    }
    assert order[..|order|] == order;
  }

  /** A resource as it stands in the output archive. */
  ghost predicate WrittenFor(c: Option<Cipher>, r: Resource, w: Written) {
    if r.isEncrypted
    then w == Written(r.file.name, r.file.storageMethod, Epubs.Delivered(r.file.contents))
    else w.name == r.file.name && w.storageMethod == 0 && c.Some? && Encrypted(c.value, Epubs.Delivered(r.file.contents), w.body)
  }

  /** The resource can be processed: its file opens and is read to its end, the archive takes what is written, and there are a
      cipher and random bytes to encrypt it, or no error when the file that is copied is closed. */
  predicate Succeeds(c: Option<Cipher>, r: Resource, iv: Option<Block>, slot: Slot) {
    var content := Epubs.Delivered(r.file.contents);
    && r.file.opens && r.file.contents.complete
    && (if r.isEncrypted then r.file.closes && Takes(slot, |content|)
        else c.Some? && iv.Some? && Takes(slot, EncryptedLength(|content|)))
  }

  /** What success of one resource takes, spelled out. */
  lemma SuccessTakes(c: Option<Cipher>, r: Resource, iv: Option<Block>, slot: Slot)
    ensures
      var n := |Epubs.Delivered(r.file.contents)|;
      Succeeds(c, r, iv, slot) <==>
      && slot.creates && r.file.opens && r.file.contents.complete
      && (r.isEncrypted ==> r.file.closes && (slot.room.Some? ==> n <= slot.room.value))
      && (!r.isEncrypted ==> c.Some? && iv.Some? && (slot.room.Some? ==> (n / 16 + 2) * 16 <= slot.room.value))
  {
    EncryptedLengthIs(|Epubs.Delivered(r.file.contents)|);
  }

  /** encryptRPFResource: the resource is listed even when its entry cannot be created, and marked even when its encryption fails. */
  method EncryptRpfResource(c: Option<Cipher>, iv: Option<Block>, r: Resource, slot: Slot, writer: RpfWriter) returns (ok: bool)
    requires !r.isEncrypted
    modifies writer
    ensures writer.readingOrder ==
            if slot.creates && r.file.opens then Touched(old(writer.readingOrder), r)
            else AddMissing(old(writer.readingOrder), r.file.name, r.contentType)
    ensures ok <==> Succeeds(c, r, iv, slot)
    ensures ok ==> |writer.written| == |old(writer.written)| + 1 && writer.written[..|old(writer.written)|] == old(writer.written)
                   && WrittenFor(c, r, writer.written[|old(writer.written)|])
  {
    ok := writer.NewFile(r.file.name, r.contentType, slot);
    if !ok || !r.file.opens {
      return false;
    }
    var body;
    ok, body := EncryptStream(c, iv, r.file.contents, slot.room);
    writer.MarkAsEncrypted(r.file.name, r.file.size, SIGNATURE);
    writer.written := writer.written + [Written(r.file.name, 0, body)];
  }

  method EncryptStream(c: Option<Cipher>, iv: Option<Block>, contents: Epubs.Stream, room: Option<nat>) returns (ok: bool, body: seq<byte>)
    ensures ok <==> c.Some? && iv.Some? && contents.complete && Takes(Slot(true, room), EncryptedLength(|Epubs.Delivered(contents)|))
    ensures ok ==> Encrypted(c.value, Epubs.Delivered(contents), body)
  {
    var reader := new Source(contents.chunks, if contents.complete then EOF else Failure, false);
    ghost var plain := reader.Rest();
    var file := new Sink(room);
    var err := Encrypt(c, reader, iv, file);
    ok, body := err == Nil, file.out;
    if ok {
      ghost var out, pads :| file.out == [] + out && EncryptedWith(c.value, iv.value, pads, plain, out);
      assert file.out == out;
    }
  }

  /** CopyTo: neither the cipher nor the chaining vector plays a part, they only say which one resource is meant. */
  method CopyTo(ghost c: Option<Cipher>, ghost iv: Option<Block>, r: Resource, slot: Slot, writer: RpfWriter) returns (ok: bool)
    requires r.isEncrypted
    modifies writer
    ensures writer.readingOrder == Touched(old(writer.readingOrder), r)
    ensures ok <==> Succeeds(c, r, iv, slot)
    ensures ok ==> |writer.written| == |old(writer.written)| + 1 && writer.written[..|old(writer.written)|] == old(writer.written)
                   && WrittenFor(c, r, writer.written[|old(writer.written)|])
  {
    ok := writer.NewFile(r.file.name, r.contentType, slot);
    if !ok || !r.file.opens {
      return false;
    }
    var content := Epubs.Delivered(r.file.contents);
    writer.written := writer.written + [Written(r.file.name, r.file.storageMethod, content)];
    ok := r.file.contents.complete && (slot.room.None? || |content| <= slot.room.value) && r.file.closes;
  }

  /** One turn of the loop of Process. */
  method ProcessOne(c: Option<Cipher>, iv: Option<Block>, r: Resource, slot: Slot, writer: RpfWriter) returns (ok: bool)
    modifies writer
    ensures ok ==> writer.readingOrder == Touched(old(writer.readingOrder), r)
    ensures ok <==> Succeeds(c, r, iv, slot)
    ensures ok ==> |writer.written| == |old(writer.written)| + 1 && writer.written[..|old(writer.written)|] == old(writer.written)
                   && WrittenFor(c, r, writer.written[|old(writer.written)|])
  {
    if !r.isEncrypted {
      ok := EncryptRpfResource(c, iv, r, slot, writer);
    } else {
      ok := CopyTo(c, iv, r, slot, writer);
    }
    hide Touched, WrittenFor, Encrypted;
  }

  /** The first n resources are in the output, in order. */
  ghost predicate AllWritten(c: Option<Cipher>, rs: seq<Resource>, n: nat, written: seq<Written>)
    requires n <= |rs|
  {
    |written| == n && forall i :: 0 <= i < n ==> WrittenFor(c, rs[i], written[i])
  }

  lemma OneMoreWritten(c: Option<Cipher>, rs: seq<Resource>, n: nat, before: seq<Written>, written: seq<Written>)
    requires n < |rs| && AllWritten(c, rs, n, before)
    requires |written| == n + 1 && written[..n] == before && WrittenFor(c, rs[n], written[n])
    ensures AllWritten(c, rs, n + 1, written)
  {
    hide WrittenFor;
    assert forall i :: 0 <= i < n ==> written[..n][i] == before[i];
  }

  /** Process: success is exact; on success every listed resource is in the output, encrypted or copied, in order, and
      the reading order is as `After` says. `slots` is what the archive writer makes of each file. */
  method Process(newCipher: seq<byte> -> Option<Cipher>, contentKey: Option<seq<byte>>, files: seq<ZipEntry>, writer: RpfWriter,
                 ivs: seq<Option<Block>>, slots: seq<Slot>)
    returns (ok: bool)
    requires writer.written == [] && |ivs| == |slots| == |ResourcesOf(files, writer.readingOrder)|
    modifies writer
    ensures
      var order := old(writer.readingOrder);
      var rs := ResourcesOf(files, order);
      && (ok <==> contentKey.Some? && forall i :: 0 <= i < |rs| ==> Succeeds(newCipher(contentKey.value), rs[i], ivs[i], slots[i]))
      && (ok ==> writer.readingOrder == After(order, rs))
      && (ok ==> AllWritten(newCipher(contentKey.value), rs, |rs|, writer.written))
  {
    if contentKey.None? {
      return false;
    }
    ghost var order := writer.readingOrder;
    var rs := Resources(files, writer.readingOrder);
    var failed := ProcessAll(newCipher(contentKey.value), rs, ivs, slots, writer);
    ok := failed == |rs|;
    hide After, ResourcesOf, Succeeds, WrittenFor;
  }

  /** The loop of Process; it answers which resource failed, or their number. */
  method ProcessAll(c: Option<Cipher>, rs: seq<Resource>, ivs: seq<Option<Block>>, slots: seq<Slot>, writer: RpfWriter) returns (n: nat)
    requires writer.written == [] && |ivs| == |slots| == |rs|
    modifies writer
    ensures n <= |rs| && (n < |rs| ==> !Succeeds(c, rs[n], ivs[n], slots[n]))
    ensures n == |rs| ==> writer.readingOrder == After(old(writer.readingOrder), rs) && AllWritten(c, rs, n, writer.written)
    ensures n == |rs| ==> forall i :: 0 <= i < n ==> Succeeds(c, rs[i], ivs[i], slots[i])
  {
    hide Touched, WrittenFor, Succeeds;
    n := 0;
    while n < |rs|
      invariant n <= |rs| && writer.readingOrder == After(old(writer.readingOrder), rs[..n])
      invariant AllWritten(c, rs, n, writer.written)
      invariant forall i :: 0 <= i < n ==> Succeeds(c, rs[i], ivs[i], slots[i])
    {
      assert rs[..n + 1][..n] == rs[..n];
      ghost var before := writer.written;
      var ok := ProcessOne(c, ivs[n], rs[n], slots[n], writer);
      if !ok {
        return;
      }
      OneMoreWritten(c, rs, n, before, writer.written);
      n := n + 1;
    }
    assert rs[..|rs|] == rs;
  }

  // ----- following the links of the output -----

  /** The index of the archive that was written: of two entries with one name, the later one. */
  function WrittenNamed(written: seq<Written>, name: Path): (w: Option<Written>) {
    if written == [] then None
    else if written[|written| - 1].name == name then Some(written[|written| - 1])
    else WrittenNamed(written[..|written| - 1], name)
  }

  /** The last resource of a name. */
  function LastNamed(rs: seq<Resource>, name: Path): (i: Option<nat>)
    ensures i.Some? ==> i.value < |rs| && rs[i.value].file.name == name
    ensures i.None? ==> forall k :: 0 <= k < |rs| ==> rs[k].file.name != name
  {
    if rs == [] then None
    else if rs[|rs| - 1].file.name == name then Some(|rs| - 1)
    else LastNamed(rs[..|rs| - 1], name)
  }

  /** The last link that leads to the file of a name was marked already. */
  predicate LastIsMarked(files: seq<ZipEntry>, order: seq<Link>, name: Path) {
    order != []
    && (var l := order[|order| - 1];
        if HasFile(files, l) && NameOf(l.href) == name then IsMarked(l) else LastIsMarked(files, order[..|order| - 1], name))
  }

  lemma {:induction false} LastResourceIsLastLink(files: seq<ZipEntry>, order: seq<Link>, name: Path)
    ensures
      var rs := ResourcesOf(files, order);
      LastIsMarked(files, order, name) <==> LastNamed(rs, name).Some? && rs[LastNamed(rs, name).value].isEncrypted
  {
    if order != [] {
      hide NameOf, FileNamed, IsMarked;
      var init := order[..|order| - 1];
      LastResourceIsLastLink(files, init, name);
      var rs := ResourcesOf(files, order);
      assert HasFile(files, order[|order| - 1]) ==> rs[..|rs| - 1] == ResourcesOf(files, init);
    }
  }

  lemma {:induction false} WrittenNamedIsLast(c: Option<Cipher>, rs: seq<Resource>, written: seq<Written>, name: Path)
    requires AllWritten(c, rs, |rs|, written) && LastNamed(rs, name).Some?
    ensures WrittenNamed(written, name) == Some(written[LastNamed(rs, name).value])
  {
    hide Encrypted;
    var n := |rs| - 1;
    assert WrittenFor(c, rs[n], written[n]);
    hide WrittenFor;
    if rs[n].file.name != name {
      assert forall i :: 0 <= i < n ==> WrittenFor(c, rs[i], written[i]);
      WrittenNamedIsLast(c, rs[..n], written[..n], name);
    }
  }

  /** A reader that follows a link of the input, and decrypts what is marked. */
  function ReadInput(c: Cipher, files: seq<ZipEntry>, l: Link): (content: Option<seq<byte>>)
    requires HasFile(files, l)
  {
    var body := Epubs.Delivered(FileNamed(files, NameOf(l.href)).value.contents);
    if IsMarked(l) then Decrypted(c, body) else Some(body)
  }

  function ReadOutput(c: Cipher, written: seq<Written>, l: Link): (content: Option<seq<byte>>) {
    var w := WrittenNamed(written, NameOf(l.href));
    if w.None? then None else if IsMarked(l) then Decrypted(c, w.value.body) else Some(w.value.body)
  }

  /** No marked and unmarked links lead to one file. */
  predicate Unmixed(files: seq<ZipEntry>, order: seq<Link>) {
    forall i, k ::
      && 0 <= i < |order| && 0 <= k < |order|
      && HasFile(files, order[i]) && HasFile(files, order[k])
      && NameOf(order[i].href) == NameOf(order[k].href)
      ==> IsMarked(order[i]) == IsMarked(order[k])
  }

  lemma {:induction false} ResourceHasLink(files: seq<ZipEntry>, order: seq<Link>, p: nat)
    requires p < |ResourcesOf(files, order)|
    ensures exists m :: 0 <= m < |order| && ComesFrom(files, ResourcesOf(files, order)[p], order[m])
  {
    var init, l := order[..|order| - 1], order[|order| - 1];
    if p < |ResourcesOf(files, init)| {
      ResourceHasLink(files, init, p);
      var m :| 0 <= m < |init| && ComesFrom(files, ResourcesOf(files, init)[p], init[m]);
      assert order[m] == init[m];
    } else {
      assert ComesFrom(files, ResourcesOf(files, order)[p], order[|order| - 1]);
    }
  }

  predicate ComesFrom(files: seq<ZipEntry>, r: Resource, l: Link) {
    HasFile(files, l) && r.file == FileNamed(files, NameOf(l.href)).value && r.isEncrypted == IsMarked(l)
  }

  lemma {:induction false} LinkHasResource(files: seq<ZipEntry>, order: seq<Link>, i: nat)
    requires i < |order| && HasFile(files, order[i])
    ensures exists p :: 0 <= p < |ResourcesOf(files, order)| && ResourcesOf(files, order)[p].file.name == NameOf(order[i].href)
  {
    var init := order[..|order| - 1];
    if i < |init| {
      LinkHasResource(files, init, i);
      var p :| 0 <= p < |ResourcesOf(files, init)| && ResourcesOf(files, init)[p].file.name == NameOf(init[i].href);
      assert ResourcesOf(files, order)[p] == ResourcesOf(files, init)[p];
    } else {
      assert ResourcesOf(files, order)[|ResourcesOf(files, init)|].file.name == NameOf(order[i].href);
    }
  }

  /** What lies in the output under the name of a link: the last resource of that name, which some link m stands for. */
  lemma EntryOfLink(c: Cipher, files: seq<ZipEntry>, order: seq<Link>, written: seq<Written>, i: nat) returns (m: nat)
    requires AllWritten(Some(c), ResourcesOf(files, order), |ResourcesOf(files, order)|, written)
    requires i < |order| && HasFile(files, order[i])
    ensures m < |order| && HasFile(files, order[m]) && NameOf(order[m].href) == NameOf(order[i].href)
    ensures IsMarked(order[m]) <==> LastIsMarked(files, order, NameOf(order[i].href))
    ensures
      var w := WrittenNamed(written, NameOf(order[i].href));
      var raw := Epubs.Delivered(FileNamed(files, NameOf(order[i].href)).value.contents);
      && w.Some?
      && (if IsMarked(order[m]) then w.value.body == raw else Encrypted(c, raw, w.value.body))
  {
    LastResourceIsLastLink(files, order, NameOf(order[i].href));
    var rs, name := ResourcesOf(files, order), NameOf(order[i].href);
    LinkHasResource(files, order, i);
    var p := LastNamed(rs, name).value;
    WrittenNamedIsLast(Some(c), rs, written, name);
    assert WrittenFor(Some(c), rs[p], written[p]);
    ResourceHasLink(files, order, p);
    m :| 0 <= m < |order| && ComesFrom(files, rs[p], order[m]);
  }

  predicate LeadsBack(c: Cipher, files: seq<ZipEntry>, order: seq<Link>, written: seq<Written>, i: nat)
    requires i < |order| <= |After(order, ResourcesOf(files, order))|
  {
    HasFile(files, order[i]) ==>
      ReadOutput(c, written, After(order, ResourcesOf(files, order))[i]) == ReadInput(c, files, order[i])
  }

  /** The link comes out marked although it was not: it is the first of its href, and some unmarked link stands for a file of
      this name. */
  predicate NewlyMarked(files: seq<ZipEntry>, order: seq<Link>, i: nat)
    requires i < |order|
  {
    !IsMarked(order[i]) && FirstOfItsHref(order, i) && SomeStandsUnmarkedFor(files, order, order[i].href)
  }

  lemma NewlyMarkedExactly(files: seq<ZipEntry>, order: seq<Link>, i: nat)
    requires i < |order|
    ensures i < |After(order, ResourcesOf(files, order))|
    ensures
      var l := After(order, ResourcesOf(files, order))[i];
      l.href == order[i].href && (IsMarked(l) <==> IsMarked(order[i]) || NewlyMarked(files, order, i))
  {
    var rs := ResourcesOf(files, order);
    ResourcesAreFiles(files, order);
    LinksAfter(files, order, rs, i);
    EncryptsByLinks(files, order, order[i].href);
    hide After, ResourcesOf, Encrypts, NameOf, FileNamed;
    if SomeStandsUnmarkedFor(files, order, order[i].href) {
      var k :| 0 <= k < |order| && StandsUnmarkedFor(files, order[k], order[i].href);
    }
  }

  /** For any reading order and any archive: a reader that follows a link of the output, and decrypts what is marked, finds what
      it found through the same link of the input, exactly when the link is newly marked if and only if its file is encrypted,
      that is, if the last link to this file was unmarked. */
  lemma LinkLeadsBackExactly(c: Cipher, files: seq<ZipEntry>, order: seq<Link>, written: seq<Written>, i: nat)
    requires AllWritten(Some(c), ResourcesOf(files, order), |ResourcesOf(files, order)|, written)
    requires i < |order| && HasFile(files, order[i])
    ensures |After(order, ResourcesOf(files, order))| >= |order|
    ensures LeadsBack(c, files, order, written, i) <==>
            (NewlyMarked(files, order, i) <==> !LastIsMarked(files, order, NameOf(order[i].href)))
  {
    HrefsAfter(order, ResourcesOf(files, order));
    NewlyMarkedExactly(files, order, i);
    var m := EntryOfLink(c, files, order, written, i);
    var raw := Epubs.Delivered(FileNamed(files, NameOf(order[i].href)).value.contents);
    var body := WrittenNamed(written, NameOf(order[i].href)).value.body;
    DecryptedIsShorter(c, raw);
    DecryptedIsShorter(c, body);
    if !IsMarked(order[m]) {
      DecryptUndoesEncrypt(c, raw, body);
    }
    hide Decrypted, Encrypted, After, ResourcesOf, FileNamed, WrittenNamed, AllWritten, NameOf, NewlyMarked, LastIsMarked;
  }

  /** An unmarked link that is not newly marked leads to a ciphertext whenever its file is encrypted. */
  lemma UnmarkedLinkIsLost(c: Cipher, files: seq<ZipEntry>, order: seq<Link>, written: seq<Written>, i: nat)
    requires AllWritten(Some(c), ResourcesOf(files, order), |ResourcesOf(files, order)|, written)
    requires i < |order| && HasFile(files, order[i]) && !IsMarked(order[i])
    requires !NewlyMarked(files, order, i) && !LastIsMarked(files, order, NameOf(order[i].href))
    ensures |After(order, ResourcesOf(files, order))| >= |order|
    ensures
      var read := ReadOutput(c, written, After(order, ResourcesOf(files, order))[i]);
      read.Some? && Encrypted(c, ReadInput(c, files, order[i]).value, read.value) && read != ReadInput(c, files, order[i])
  {
    HrefsAfter(order, ResourcesOf(files, order));
    NewlyMarkedExactly(files, order, i);
    var m := EntryOfLink(c, files, order, written, i);
    LinkLeadsBackExactly(c, files, order, written, i);
    hide Encrypted, After, ResourcesOf, FileNamed, WrittenNamed, AllWritten, NameOf, NewlyMarked, LastIsMarked;
  }

  /** One file and one link that has to be unescaped, a blank written as %20 is enough: whoever follows the link gets a
      ciphertext. */
  lemma EscapedHrefIsLost(c: Cipher, file: ZipEntry, l: Link, written: seq<Written>)
    requires NameOf(l.href) == file.name != l.href && !IsMarked(l)
    requires AllWritten(Some(c), ResourcesOf([file], [l]), |ResourcesOf([file], [l])|, written)
    ensures |After([l], ResourcesOf([file], [l]))| >= 1
    ensures
      var read := ReadOutput(c, written, After([l], ResourcesOf([file], [l]))[0]);
      var content := Epubs.Delivered(file.contents);
      read.Some? && Encrypted(c, content, read.value) && read.value != content
  {
    assert FileNamed([file], file.name) == Some(file);
    assert !SomeStandsUnmarkedFor([file], [l], l.href);
    UnmarkedLinkIsLost(c, [file], [l], written, 0);
  }

  /** One file and two unmarked links of one plain href: the second leads to a ciphertext. */
  lemma RepeatedHrefIsLost(c: Cipher, file: ZipEntry, l1: Link, l2: Link, written: seq<Written>)
    requires NameOf(l1.href) == file.name == l1.href == l2.href && !IsMarked(l1) && !IsMarked(l2)
    requires AllWritten(Some(c), ResourcesOf([file], [l1, l2]), |ResourcesOf([file], [l1, l2])|, written)
    ensures |After([l1, l2], ResourcesOf([file], [l1, l2]))| >= 2
    ensures
      var read := ReadOutput(c, written, After([l1, l2], ResourcesOf([file], [l1, l2]))[1]);
      var content := Epubs.Delivered(file.contents);
      read.Some? && Encrypted(c, content, read.value) && read.value != content
  {
    assert FileNamed([file], file.name) == Some(file);
    assert [l1, l2][0].href == [l1, l2][1].href;
    UnmarkedLinkIsLost(c, [file], [l1, l2], written, 1);
  }

  /** When Process marks what it is for, all the links lead back exactly when no marked and unmarked link lead to one file. */
  lemma LinksLeadBackExactly(c: Cipher, files: seq<ZipEntry>, order: seq<Link>, written: seq<Written>)
    requires AllWritten(Some(c), ResourcesOf(files, order), |ResourcesOf(files, order)|, written)
    requires AllLeadPlainly(files, order)
    ensures |After(order, ResourcesOf(files, order))| >= |order|
    ensures (forall i :: 0 <= i < |order| ==> LeadsBack(c, files, order, written, i)) <==> Unmixed(files, order)
  {
    HrefsAfter(order, ResourcesOf(files, order));
    hide LeadsBack, After, ResourcesOf, FileNamed, NameOf, IsMarked, AllWritten, LastIsMarked, NewlyMarked;
    if Unmixed(files, order) {
      forall i | 0 <= i < |order| ensures LeadsBack(c, files, order, written, i) {
        if HasFile(files, order[i]) {
          LinkLeadsBackExactly(c, files, order, written, i);
          PlainIsNewlyMarked(files, order, i);
          var m := EntryOfLink(c, files, order, written, i);
        } else {
          NothingToLeadTo(c, files, order, written, i);
        }
      }
    } else {
      var i, k :| 0 <= i < |order| && 0 <= k < |order| && HasFile(files, order[i]) && HasFile(files, order[k])
                  && NameOf(order[i].href) == NameOf(order[k].href) && IsMarked(order[i]) != IsMarked(order[k]);
      LinkLeadsBackExactly(c, files, order, written, i);
      LinkLeadsBackExactly(c, files, order, written, k);
      PlainIsNewlyMarked(files, order, i);
      PlainIsNewlyMarked(files, order, k);
    }
  }

  lemma PlainIsNewlyMarked(files: seq<ZipEntry>, order: seq<Link>, i: nat)
    requires i < |order| && AllLeadPlainly(files, order) && HasFile(files, order[i])
    ensures NewlyMarked(files, order, i) <==> !IsMarked(order[i])
  {
    assert LeadsPlainly(files, order, i);
    if !IsMarked(order[i]) {
      assert StandsUnmarkedFor(files, order[i], order[i].href);
    }
  }

  lemma NothingToLeadTo(c: Cipher, files: seq<ZipEntry>, order: seq<Link>, written: seq<Written>, i: nat)
    requires i < |order| <= |After(order, ResourcesOf(files, order))| && !HasFile(files, order[i])
    ensures LeadsBack(c, files, order, written, i)
  {
  }
}
