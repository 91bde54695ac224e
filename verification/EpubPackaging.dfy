/** pack/pack.go, Do: encrypts the resources of an EPUB and grows its encryption manifest while looking things up in it. */
module EpubPackaging {
  import opened Options
  import opened Bytes
  import opened Streams
  import opened Padding
  import opened Urls
  import opened Epubs
  import opened Cbc

  // ----- abstract building blocks -----

  /** AES by key (None: the key length does not fit), and deflate with its inverse. */
  datatype Toolkit = Toolkit(newCipher: seq<byte> -> Option<Cipher>, deflate: seq<byte> -> seq<byte>, inflate: seq<byte> -> Option<seq<byte>>)

  ghost predicate Lossless(t: Toolkit) { forall x: seq<byte> :: t.inflate(t.deflate(x)) == Some(x) }

  // ----- the encryption manifest -----

  const NO_COMPRESSION := 0
  const DEFLATE := 8

  datatype Compression = Compression(compression: nat, originalLength: nat)

  datatype Data = Data(algorithm: string, uri: Path, properties: Option<seq<Compression>>)

  /** The first entry for a path, compared by escaped URI. */
  function DataFor(data: seq<Data>, path: Path): (d: Option<Data>) {
    if data == [] then None
    else
      var before := DataFor(data[..|data| - 1], path);
      if before.Some? then before
      else if data[|data| - 1].uri == Escaped(path) then Some(data[|data| - 1]) else None
  }

  lemma DataForAppend(data: seq<Data>, d: Data, path: Path)
    ensures DataFor(data + [d], path) ==
            if DataFor(data, path).Some? then DataFor(data, path) else if d.uri == Escaped(path) then Some(d) else None
  {
    assert (data + [d])[..|data|] == data;
  }

  class Manifest {
    var data: seq<Data>

    constructor ()
      ensures data == []
    {
      data := [];
    }

    method DataForFile(path: Path) returns (found: Option<Data>)
      ensures found == DataFor(data, path)
    {
      var uri := ResourcePathEscape(path);
      found := None;
      var n := 0;
      while n < |data| && found.None?
        invariant 0 <= n <= |data|
        invariant found == DataFor(data[..n], path)
      {
        assert data[..n + 1] == data[..n] + [data[n]];
        DataForAppend(data[..n], data[n], path);
        if data[n].uri == uri {
          found := Some(data[n]);
        }
        n := n + 1;
      }
      DataForPrefix(data, n, path);
    }
  }

  lemma {:induction false} DataForPrefix(data: seq<Data>, n: nat, path: Path)
    requires n <= |data| && (DataFor(data[..n], path).Some? || n == |data|)
    ensures DataFor(data, path) == DataFor(data[..n], path)
  {
    if n == |data| {
      assert data[..n] == data;
    } else {
      var init := data[..|data| - 1];
      assert init[..n] == data[..n];
      DataForPrefix(init, n, path);
    }
  }

  // ----- what Do is to produce -----

  datatype File = File(path: Path, storageMethod: nat, body: seq<byte>)

  /** The archive written: whether it starts with the mimetype, the files, and the manifest if it could be written. */
  datatype Output = Output(mimetype: bool, files: seq<File>, manifest: Option<seq<Data>>)

  predicate HasPrefix(s: string, prefix: string) { prefix <= s }

  /** Images, videos, audio and PDF are stored as they are; all other media types are deflated before encryption. */
  predicate MustCompress(r: Resource) {
    r.contentType == ""
    || (!HasPrefix(r.contentType, "image") && !HasPrefix(r.contentType, "video") && !HasPrefix(r.contentType, "audio")
        && r.contentType != "application/pdf")
  }

  function DataOf(r: Resource): (d: Data) {
    Data(SIGNATURE, Escaped(r.path), Some([Compression(if MustCompress(r) then DEFLATE else NO_COMPRESSION, r.originalSize)]))
  }

  /** What is encrypted: the content, deflated or not. A reader that fails before its end delivers what it had. */
  function Plain(t: Toolkit, r: Resource): (plain: seq<byte>) {
    if MustCompress(r) then t.deflate(Delivered(r.contents)) else Delivered(r.contents)
  }

  /** No resource before i has its path. */
  predicate IsFirst(ep: Epub, i: nat)
    requires i < |ep.resources|
  {
    forall j :: 0 <= j < i ==> ep.resources[j].path != ep.resources[i].path
  }

  /** Resource i is to be encrypted: it may be, the manifest does not have it, and its path did not occur before. */
  predicate Selected(ep: Epub, listed: seq<Data>, i: nat)
    requires i < |ep.resources|
  {
    ep.resources[i].path !in ep.cleartext && DataFor(listed, ep.resources[i].path).None? && IsFirst(ep, i)
  }

  /** The manifest entries of the first n resources, in resource order. */
  function NewData(ep: Epub, listed: seq<Data>, n: nat): (data: seq<Data>)
    requires n <= |ep.resources|
  {
    if n == 0 then []
    else
      var init := NewData(ep, listed, n - 1);
      if Selected(ep, listed, n - 1) then init + [DataOf(ep.resources[n - 1])] else init
  }

  lemma NothingNew(ep: Epub, listed: seq<Data>)
    ensures listed + NewData(ep, listed, 0) == listed
  {
    assert listed + [] == listed;
  }

  /** Resource i as it stands in the output. */
  ghost predicate PackedAs(t: Toolkit, c: Option<Cipher>, ep: Epub, listed: seq<Data>, i: nat, f: File)
    requires i < |ep.resources|
  {
    var r := ep.resources[i];
    if Selected(ep, listed, i)
    then f.path == r.path && f.storageMethod == NO_COMPRESSION && c.Some? && Encrypted(c.value, Plain(t, r), f.body)
    else f == File(r.path, r.storageMethod, Delivered(r.contents))
  }

  ghost predicate Packed(t: Toolkit, c: Option<Cipher>, ep: Epub, listed: seq<Data>, files: seq<File>) {
    |files| == |ep.resources| && forall i :: 0 <= i < |files| ==> PackedAs(t, c, ep, listed, i, files[i])
  }

  /** Resource i can be processed. A failing reader goes unnoticed when its resource is compressed and encrypted. */
  predicate Succeeds(t: Toolkit, c: Option<Cipher>, ep: Epub, listed: seq<Data>, iv: Option<Block>, slot: Slot, i: nat)
    requires i < |ep.resources|
  {
    var r := ep.resources[i];
    if Selected(ep, listed, i)
    then c.Some? && iv.Some? && (r.contents.complete || MustCompress(r)) && Takes(slot, EncryptedLength(|Plain(t, r)|))
    else r.contents.complete && Takes(slot, |Delivered(r.contents)|)
  }

  // ----- looking things up in the growing manifest -----

  /** The first of the first n resources with a path. */
  function FirstAt(rs: seq<Resource>, n: nat, path: Path): (i: Option<nat>)
    requires n <= |rs|
    ensures i.Some? ==> i.value < n && rs[i.value].path == path && forall j :: 0 <= j < i.value ==> rs[j].path != path
    ensures i.None? ==> forall j :: 0 <= j < n ==> rs[j].path != path
  {
    if n == 0 then None
    else
      var before := FirstAt(rs, n - 1, path);
      if before.Some? then before else if rs[n - 1].path == path then Some(n - 1) else None
  }

  /** A new entry is found under the path of its resource and under no other. */
  lemma ManifestAppend(data: seq<Data>, r: Resource, path: Path)
    ensures DataFor(data + [DataOf(r)], path) ==
            if DataFor(data, path).Some? then DataFor(data, path) else if r.path == path then Some(DataOf(r)) else None
  {
    DataForAppend(data, DataOf(r), path);
    if Escaped(r.path) == Escaped(path) {
      EscapeIsInjective(r.path, path);
    }
  }

  /** What the manifest holds for a path after n resources. */
  lemma {:induction false} GrownManifest(ep: Epub, listed: seq<Data>, n: nat, path: Path)
    requires n <= |ep.resources|
    ensures DataFor(listed + NewData(ep, listed, n), path) ==
            if DataFor(listed, path).Some? then DataFor(listed, path)
            else if path in ep.cleartext || FirstAt(ep.resources, n, path).None? then None
            else Some(DataOf(ep.resources[FirstAt(ep.resources, n, path).value]))
  {
    hide Escaped, DataFor, MustCompress;
    if n == 0 {
      NothingNew(ep, listed);
    } else {
      GrownManifest(ep, listed, n - 1, path);
      var r := ep.resources[n - 1];
      if Selected(ep, listed, n - 1) {
        ManifestAppend(listed + NewData(ep, listed, n - 1), r, path);
        assert listed + NewData(ep, listed, n) == (listed + NewData(ep, listed, n - 1)) + [DataOf(r)];
      }
      hide DataOf, NewData;
    }
  }

  /** The lookup Do makes at resource i tells whether it is selected. */
  lemma LookupDecides(ep: Epub, listed: seq<Data>, i: nat)
    requires i < |ep.resources|
    ensures
      var path := ep.resources[i].path;
      Selected(ep, listed, i) <==> DataFor(listed + NewData(ep, listed, i), path).None? && path !in ep.cleartext
  {
    GrownManifest(ep, listed, i, ep.resources[i].path);
  }

  // ----- main results -----

  /** A reading system: what it makes of a file with the manifest and the key. */
  function ReadFile(t: Toolkit, c: Cipher, data: seq<Data>, f: File): (content: Option<seq<byte>>) {
    var d := DataFor(data, f.path);
    if d.None? then Some(f.body)
    else if Decrypted(c, f.body).None? then None
    else if Deflated(d.value) then t.inflate(Decrypted(c, f.body).value) else Decrypted(c, f.body)
  }

  /** The entry says that the resource was compressed before encryption. */
  predicate Deflated(d: Data) {
    d.properties.Some? && exists k :: 0 <= k < |d.properties.value| && d.properties.value[k].compression == DEFLATE
  }

  lemma DeflatedExactly(r: Resource)
    ensures Deflated(DataOf(r)) <==> MustCompress(r)
  {
    var p := DataOf(r).properties.value;
    assert |p| == 1 && (p[0].compression == DEFLATE <==> MustCompress(r));
  }

  /** Resource i is read from the output as it was. */
  predicate ReadsBack(t: Toolkit, c: Cipher, ep: Epub, listed: seq<Data>, files: seq<File>, i: nat)
    requires i < |ep.resources| == |files|
  {
    files[i].path == ep.resources[i].path
    && ReadFile(t, c, listed + NewData(ep, listed, |ep.resources|), files[i]) == Some(Delivered(ep.resources[i].contents))
  }

  /** The resource stays in clear, or is the first of its path. */
  predicate ClearOrFirst(ep: Epub, i: nat)
    requires i < |ep.resources|
  {
    ep.resources[i].path in ep.cleartext || IsFirst(ep, i)
  }

  /** Reading the output with its manifest and its key gives back, in the same order and byte for byte, every resource that
      stays in clear or is the first of its path. */
  lemma OutputReadsBack(t: Toolkit, c: Cipher, ep: Epub, listed: seq<Data>, files: seq<File>, i: nat)
    requires Lossless(t) && Packed(t, Some(c), ep, listed, files) && i < |ep.resources|
    requires DataFor(listed, ep.resources[i].path).None? && ClearOrFirst(ep, i)
    ensures ReadsBack(t, c, ep, listed, files, i)
  {
    var r, f := ep.resources[i], files[i];
    assert PackedAs(t, Some(c), ep, listed, i, f);
    GrownManifest(ep, listed, |ep.resources|, r.path);
    if Selected(ep, listed, i) {
      FirstIsFirst(ep.resources, |ep.resources|, i);
      DecryptUndoesEncrypt(c, Plain(t, r), f.body);
      DeflatedExactly(r);
    }
  }

  /** What the input manifest already lists is carried over as it is, and so is its entry. */
  lemma ListedIsKept(t: Toolkit, c: Option<Cipher>, ep: Epub, listed: seq<Data>, files: seq<File>, i: nat)
    requires Packed(t, c, ep, listed, files) && i < |ep.resources| && DataFor(listed, ep.resources[i].path).Some?
    ensures
      var r := ep.resources[i];
      && files[i] == File(r.path, r.storageMethod, Delivered(r.contents))
      && DataFor(listed + NewData(ep, listed, |ep.resources|), r.path) == DataFor(listed, r.path)
  {
    assert PackedAs(t, c, ep, listed, i, files[i]);
    GrownManifest(ep, listed, |ep.resources|, ep.resources[i].path);
  }

  lemma PartialBlocks(c: Cipher, b: seq<byte>)
    requires |b| % BLOCK != 0
    ensures Decrypted(c, b).None?
  {
  }

  /** The content could be taken for a ciphertext that was deflated. */
  predicate LooksDeflated(ep: Epub, i: nat)
    requires i < |ep.resources|
  {
    var path := ep.resources[i].path;
    && |Delivered(ep.resources[i].contents)| % BLOCK == 0
    && FirstAt(ep.resources, |ep.resources|, path).Some?
    && MustCompress(ep.resources[FirstAt(ep.resources, |ep.resources|, path).value])
  }

  /** Any other resource passes in clear while the manifest says otherwise: it reads back exactly when it stays in clear or
      is the first of its path, unless its content, in whole blocks, happens to decrypt and inflate to itself. */
  lemma OutputReadsBackExactly(t: Toolkit, c: Cipher, ep: Epub, listed: seq<Data>, files: seq<File>, i: nat)
    requires Lossless(t) && Packed(t, Some(c), ep, listed, files) && i < |ep.resources|
    requires DataFor(listed, ep.resources[i].path).None? && !LooksDeflated(ep, i)
    ensures ReadsBack(t, c, ep, listed, files, i) <==> ClearOrFirst(ep, i)
  {
    if ClearOrFirst(ep, i) {
      OutputReadsBack(t, c, ep, listed, files, i);
    } else {
      var r, f := ep.resources[i], files[i];
      assert PackedAs(t, Some(c), ep, listed, i, f);
      GrownManifest(ep, listed, |ep.resources|, r.path);
      var first := ep.resources[FirstAt(ep.resources, |ep.resources|, r.path).value];
      DecryptedIsShorter(c, f.body);
      DeflatedExactly(first);
      if |f.body| % BLOCK != 0 {
        PartialBlocks(c, f.body);
      }
      hide Decrypted, MustCompress, Deflated, DataOf;
    }
  }

  /** The second copy of a selected path, when it is not made of whole blocks, cannot be read at all. */
  lemma SecondCopyIsLost(t: Toolkit, c: Cipher, ep: Epub, listed: seq<Data>, files: seq<File>, j: nat, i: nat)
    requires Packed(t, Some(c), ep, listed, files) && j < i < |ep.resources| && Selected(ep, listed, j)
    requires ep.resources[i].path == ep.resources[j].path && |Delivered(ep.resources[i].contents)| % BLOCK != 0
    ensures ReadFile(t, c, listed + NewData(ep, listed, |ep.resources|), files[i]) == None
  {
    assert PackedAs(t, Some(c), ep, listed, i, files[i]);
    GrownManifest(ep, listed, |ep.resources|, ep.resources[i].path);
  }

  lemma FirstIsFirst(rs: seq<Resource>, n: nat, i: nat)
    requires i < n <= |rs| && forall j :: 0 <= j < i ==> rs[j].path != rs[i].path
    ensures FirstAt(rs, n, rs[i].path) == Some(i)
  {
  }

  /** The publication with other contents for resource i. */
  function WithContents(ep: Epub, i: nat, x: Stream): (other: Epub)
    requires i < |ep.resources|
  {
    ep.(resources := ep.resources[i := ep.resources[i].(contents := x)])
  }

  lemma EncryptionExists(c: Cipher, plain: seq<byte>) returns (out: seq<byte>)
    ensures Encrypted(c, plain, out)
  {
    var iv: Block := seq(BLOCK, i => 0);
    var k := PadLength(|plain|, BLOCK);
    var pads: seq<byte> := seq(k, i requires 0 <= i < k => if i == k - 1 then k as byte else 1);
    out := iv + CbcEncrypt(c, iv, plain + pads);
    assert EncryptedWith(c, iv, pads, plain, out);
  }

  lemma {:induction false} PackingExists(t: Toolkit, c: Cipher, ep: Epub, listed: seq<Data>, n: nat) returns (files: seq<File>)
    requires n <= |ep.resources|
    ensures |files| == n && forall i :: 0 <= i < n ==> PackedAs(t, Some(c), ep, listed, i, files[i])
  {
    files := [];
    if n > 0 {
      var init := PackingExists(t, c, ep, listed, n - 1);
      var r := ep.resources[n - 1];
      var body := EncryptionExists(c, Plain(t, r));
      files := init + [if Selected(ep, listed, n - 1) then File(r.path, NO_COMPRESSION, body) else File(r.path, r.storageMethod, Delivered(r.contents))];
      hide Encrypted;
    }
  }

  /** Whatever its content, resource i reads back from whatever output Do may write: exactly when it stays in clear or is the
      first of its path. */
  lemma EveryContentReadsBackExactly(t: Toolkit, c: Cipher, ep: Epub, listed: seq<Data>, i: nat)
    requires Lossless(t) && i < |ep.resources| && DataFor(listed, ep.resources[i].path).None?
    ensures
      (forall x: Stream, files: seq<File> ::
         Packed(t, Some(c), WithContents(ep, i, x), listed, files) ==> ReadsBack(t, c, WithContents(ep, i, x), listed, files, i))
      <==> ClearOrFirst(ep, i)
  {
    hide ReadsBack, PackedAs, DataFor, ClearOrFirst, MustCompress;
    if ClearOrFirst(ep, i) {
      forall x: Stream, files: seq<File> | Packed(t, Some(c), WithContents(ep, i, x), listed, files)
        ensures ReadsBack(t, c, WithContents(ep, i, x), listed, files, i)
      {
        SamePathsSameOrder(ep, i, x);
        OutputReadsBack(t, c, WithContents(ep, i, x), listed, files, i);
      }
    } else {
      var x := Stream([[0]], true);
      SamePathsSameOrder(ep, i, x);
      var other := WithContents(ep, i, x);
      var files := PackingExists(t, c, other, listed, |other.resources|);
      assert Packed(t, Some(c), other, listed, files);
      assert Flat([[0]]) == [0] by { assert Flat([]) == [] && [[0]][1..] == []; }
      OutputReadsBackExactly(t, c, other, listed, files, i);
    }
  }

  lemma SamePathsSameOrder(ep: Epub, i: nat, x: Stream)
    requires i < |ep.resources|
    ensures WithContents(ep, i, x).resources[i].path == ep.resources[i].path
    ensures ClearOrFirst(WithContents(ep, i, x), i) <==> ClearOrFirst(ep, i)
  {
    assert forall j :: 0 <= j < |ep.resources| ==> WithContents(ep, i, x).resources[j].path == ep.resources[j].path;
  }

  // ----- what is encrypted, spelled out -----

  /** The media types that are deflated before encryption: none given, or none of image, video, audio and PDF. */
  predicate IsText(contentType: string) {
    contentType == ""
    || !("image" <= contentType || "video" <= contentType || "audio" <= contentType || contentType == "application/pdf")
  }

  lemma MediaTypes(rest: string)
    ensures IsText("") && IsText("text/html") && IsText("application/xhtml+xml") && IsText("application/pdf;v=2")
    ensures !IsText("image" + rest) && !IsText("video" + rest) && !IsText("audio" + rest) && !IsText("application/pdf")
  {
    assert "text/html"[0] == 't' && "application/xhtml+xml"[..2] == "ap" && "application/pdf;v=2"[..2] == "ap";
    assert "audio"[..2] == "au" && "image"[0] == 'i' && "video"[0] == 'v';
    assert |"application/pdf"| == 15 && |"application/xhtml+xml"| == 21 && |"application/pdf;v=2"| == 19;
    NoPrefix("application/xhtml+xml", "audio");
    NoPrefix("application/pdf;v=2", "audio");
  }

  lemma NoPrefix(s: string, prefix: string)
    requires |s| >= 2 && |prefix| >= 2 && s[1] != prefix[1]
    ensures !(prefix <= s)
  {
  }

  predicate IsOnlyEntry(data: seq<Data>, uri: Path, d: Data) {
    exists k :: 0 <= k < |data| && data[k] == d && forall j :: 0 <= j < |data| && data[j].uri == uri ==> j == k
  }

  lemma {:induction false} NotListed(data: seq<Data>, path: Path)
    ensures DataFor(data, path).None? <==> forall j :: 0 <= j < |data| ==> data[j].uri != Escaped(path)
  {
    if data != [] {
      hide Escaped;
      NotListed(data[..|data| - 1], path);
    }
  }

  /** Of several entries of one path the first is found. */
  lemma {:induction false} FirstEntryIsFound(data: seq<Data>, path: Path, i: nat)
    requires i < |data| && data[i].uri == Escaped(path) && forall j :: 0 <= j < i ==> data[j].uri != Escaped(path)
    ensures DataFor(data, path) == Some(data[i])
  {
    hide Escaped;
    NotListed(data[..|data| - 1], path);
    if i < |data| - 1 {
      FirstEntryIsFound(data[..|data| - 1], path, i);
    }
  }

  lemma OneEntryMore(data: seq<Data>, d: Data, path: Path)
    requires DataFor(data, path).None? && d.uri == Escaped(path)
    ensures IsOnlyEntry(data + [d], Escaped(path), d)
  {
    hide Escaped, DataFor;
    NotListed(data, path);
    assert (data + [d])[|data|] == d;
  }

  lemma OtherEntryMore(data: seq<Data>, e: Data, uri: Path, d: Data)
    requires IsOnlyEntry(data, uri, d) && e.uri != uri
    ensures IsOnlyEntry(data + [e], uri, d)
  {
    var k :| 0 <= k < |data| && data[k] == d && forall j :: 0 <= j < |data| && data[j].uri == uri ==> j == k;
    assert (data + [e])[k] == d;
  }

  lemma {:induction false} SelectedHasOneEntry(ep: Epub, listed: seq<Data>, i: nat, n: nat)
    requires i < n <= |ep.resources| && Selected(ep, listed, i)
    ensures IsOnlyEntry(listed + NewData(ep, listed, n), Escaped(ep.resources[i].path), DataOf(ep.resources[i]))
  {
    hide Escaped, DataFor, MustCompress, IsOnlyEntry;
    var r, last := ep.resources[i], ep.resources[n - 1];
    var before := listed + NewData(ep, listed, n - 1);
    assert Selected(ep, listed, n - 1) ==> listed + NewData(ep, listed, n) == before + [DataOf(last)];
    if i == n - 1 {
      LookupDecides(ep, listed, i);
      OneEntryMore(before, DataOf(r), r.path);
    } else {
      SelectedHasOneEntry(ep, listed, i, n - 1);
      if Selected(ep, listed, n - 1) {
        if Escaped(last.path) == Escaped(r.path) {
          EscapeIsInjective(last.path, r.path);
        }
        OtherEntryMore(before, DataOf(last), Escaped(r.path), DataOf(r));
      }
    }
  }

  /** A resource that may be encrypted, that the input manifest does not list, and whose path did not occur before: it has one
      entry in the manifest, which names the algorithm, the escaped path and the original size, and the file under its path
      decrypts to its content, deflated exactly when its media type is a text and the entry says so. */
  lemma SelectedIsEncrypted(t: Toolkit, c: Cipher, ep: Epub, listed: seq<Data>, files: seq<File>, i: nat)
    requires Packed(t, Some(c), ep, listed, files) && i < |ep.resources|
    requires ep.resources[i].path !in ep.cleartext && forall j :: 0 <= j < i ==> ep.resources[j].path != ep.resources[i].path
    requires forall j :: 0 <= j < |listed| ==> listed[j].uri != Escaped(ep.resources[i].path)
    ensures
      var r, f := ep.resources[i], files[i];
      var text := IsText(r.contentType);
      && IsOnlyEntry(listed + NewData(ep, listed, |ep.resources|), Escaped(r.path),
                     Data("http://www.w3.org/2001/04/xmlenc#aes256-cbc", Escaped(r.path), Some([Compression(if text then 8 else 0, r.originalSize)])))
      && f.path == r.path && f.storageMethod == 0
      && Decrypted(c, f.body) == Some(if text then t.deflate(Delivered(r.contents)) else Delivered(r.contents))
  {
    var r, f := ep.resources[i], files[i];
    NotListed(listed, r.path);
    assert PackedAs(t, Some(c), ep, listed, i, f);
    SelectedHasOneEntry(ep, listed, i, |ep.resources|);
    DecryptUndoesEncrypt(c, Plain(t, r), f.body);
    hide IsOnlyEntry, Decrypted, Escaped;
  }

  /** Every other resource is in the output as it is, with its storage method, and has no new entry. */
  lemma OthersAreCopied(t: Toolkit, c: Option<Cipher>, ep: Epub, listed: seq<Data>, files: seq<File>, i: nat)
    requires Packed(t, c, ep, listed, files) && i < |ep.resources|
    requires ep.resources[i].path in ep.cleartext
             || (exists j :: 0 <= j < i && ep.resources[j].path == ep.resources[i].path)
             || (exists j :: 0 <= j < |listed| && listed[j].uri == Escaped(ep.resources[i].path))
    ensures files[i] == File(ep.resources[i].path, ep.resources[i].storageMethod, Delivered(ep.resources[i].contents))
    ensures NewData(ep, listed, i + 1) == NewData(ep, listed, i)
  {
    NotListed(listed, ep.resources[i].path);
    assert PackedAs(t, c, ep, listed, i, files[i]);
    hide DataFor, Escaped;
  }

  /** What success of one resource takes, spelled out for the resource that is encrypted and the one that is copied. */
  lemma SuccessTakes(t: Toolkit, c: Option<Cipher>, ep: Epub, listed: seq<Data>, iv: Option<Block>, slot: Slot, i: nat)
    requires i < |ep.resources|
    ensures
      var r := ep.resources[i];
      var text := IsText(r.contentType);
      var n := |if text then t.deflate(Delivered(r.contents)) else Delivered(r.contents)|;
      Succeeds(t, c, ep, listed, iv, slot, i) <==>
      if Selected(ep, listed, i)
      then c.Some? && iv.Some? && (r.contents.complete || text) && slot.creates && (slot.room.Some? ==> (n / 16 + 2) * 16 <= slot.room.value)
      else r.contents.complete && slot.creates && (slot.room.Some? ==> |Delivered(r.contents)| <= slot.room.value)
  {
    EncryptedLengthIs(|Plain(t, ep.resources[i])|);
    hide EncryptedLength, Selected;
  }

  // ----- a second pass -----

  /** The archive b holds what Do wrote for the archive a. */
  predicate IsReopened(a: Archive, files: seq<File>, b: Archive) {
    && b.rootFiles == a.rootFiles
    && |b.files| == |files| + 2
    && b.files[0].resource.path == MIMETYPE
    && (forall k :: 0 <= k < |files| ==> !b.files[k + 1].isDir && b.files[k + 1].resource.path == files[k].path)
    && b.files[|files| + 1].resource.path == ENCRYPTION_FILE
  }

  /** The publication that Read makes of an archive. */
  ghost predicate IsRead(a: Archive, ep: Epub) {
    && Readable(a)
    && ep.resources == ResourcesOf(a.files)
    && forall path :: path in ep.cleartext <==> MustStayClear(a, path)
  }

  lemma {:induction false} ResourcesAreListed(files: seq<ZipFile>, k: nat)
    requires k < |ResourcesOf(files)|
    ensures exists i :: 0 <= i < |files| && IsResource(files[i]) && files[i].resource == ResourcesOf(files)[k]
  {
    var init, last := files[..|files| - 1], files[|files| - 1];
    if k < |ResourcesOf(init)| {
      ResourcesAreListed(init, k);
      var i :| 0 <= i < |init| && IsResource(init[i]) && init[i].resource == ResourcesOf(init)[k];
      assert files[i] == init[i];
    } else {
      assert IsResource(last);
    }
  }

  lemma {:induction false} AllAreResources(files: seq<ZipFile>)
    requires forall i :: 0 <= i < |files| ==> IsResource(files[i])
    ensures |ResourcesOf(files)| == |files| && forall i :: 0 <= i < |files| ==> ResourcesOf(files)[i] == files[i].resource
  {
    if files != [] {
      AllAreResources(files[..|files| - 1]);
    }
  }

  lemma {:induction false} ResourcesOfTwo(a: seq<ZipFile>, b: seq<ZipFile>)
    ensures ResourcesOf(a + b) == ResourcesOf(a) + ResourcesOf(b)
  {
    if b == [] {
      assert a + b == a;
    } else {
      ResourcesOfTwo(a, b[..|b| - 1]);
      assert (a + b)[..|a + b| - 1] == a + b[..|b| - 1];
    }
  }

  /** The reopened output has the resources of the input, path by path. */
  lemma ReopenedPaths(a: Archive, ep: Epub, files: seq<File>, b: Archive)
    requires IsRead(a, ep) && IsReopened(a, files, b) && |files| == |ep.resources|
    requires forall k :: 0 <= k < |files| ==> files[k].path == ep.resources[k].path
    ensures
      var rs := ResourcesOf(b.files);
      |rs| == |ep.resources| && forall k :: 0 <= k < |rs| ==> rs[k].path == ep.resources[k].path
  {
    var middle := b.files[1..|files| + 1];
    forall k | 0 <= k < |middle| ensures IsResource(middle[k]) && middle[k].resource.path == ep.resources[k].path {
      ResourcesAreListed(a.files, k);
      assert middle[k] == b.files[k + 1];
    }
    AllAreResources(middle);
    var head, tail := [b.files[0]], [b.files[|files| + 1]];
    assert b.files == head + (middle + tail);
    assert head[..0] == [] && tail[..0] == [];
    ResourcesOfTwo(head, middle + tail);
    ResourcesOfTwo(middle, tail);
  }

  /** The reopened output keeps the same resources in clear. */
  lemma ReopenedCleartext(a: Archive, ep: Epub, files: seq<File>, b: Archive, k: nat)
    requires IsRead(a, ep) && IsReopened(a, files, b) && Readable(b) && |files| == |ep.resources|
    requires forall k :: 0 <= k < |files| ==> files[k].path == ep.resources[k].path
    requires k < |ep.resources|
    ensures MustStayClear(b, ep.resources[k].path) <==> MustStayClear(a, ep.resources[k].path)
  {
    var path := ep.resources[k].path;
    ResourcesAreListed(a.files, k);
    var i :| 0 <= i < |a.files| && IsResource(a.files[i]) && a.files[i].resource == ep.resources[k];
    assert !b.files[k + 1].isDir && b.files[k + 1].resource.path == path;
    hide ClearByPackage;
  }

  lemma {:induction false} SamePathsAddNothing(ep: Epub, listed: seq<Data>, again: Epub, n: nat)
    requires |again.resources| == |ep.resources|
    requires forall k :: 0 <= k < |ep.resources| ==> again.resources[k].path == ep.resources[k].path
    requires forall k :: 0 <= k < |ep.resources| ==> (ep.resources[k].path in again.cleartext <==> ep.resources[k].path in ep.cleartext)
    requires n <= |ep.resources|
    ensures NewData(again, listed + NewData(ep, listed, |ep.resources|), n) == []
  {
    if n > 0 {
      SamePathsAddNothing(ep, listed, again, n - 1);
      GrownManifest(ep, listed, |ep.resources|, ep.resources[n - 1].path);
    }
  }

  /** Opened again with its manifest, what Do wrote for a publication gets nothing more encrypted. */
  lemma SecondPassAddsNothing(t: Toolkit, c: Option<Cipher>, a: Archive, ep: Epub, listed: seq<Data>, files: seq<File>, b: Archive, again: Epub)
    requires IsRead(a, ep) && Packed(t, c, ep, listed, files) && IsReopened(a, files, b) && IsRead(b, again)
    ensures |again.resources| == |ep.resources|
    ensures NewData(again, listed + NewData(ep, listed, |ep.resources|), |again.resources|) == []
  {
    forall k | 0 <= k < |files| ensures files[k].path == ep.resources[k].path {
      assert PackedAs(t, c, ep, listed, k, files[k]);
    }
    ReopenedPaths(a, ep, files, b);
    forall k | 0 <= k < |ep.resources| ensures ep.resources[k].path in again.cleartext <==> ep.resources[k].path in ep.cleartext {
      ReopenedCleartext(a, ep, files, b, k);
    }
    SamePathsAddNothing(ep, listed, again, |ep.resources|);
  }

  // ----- the Go code -----

  /** mustCompressBeforeEncryption: everything but images, videos, audio and PDF. */
  method MustCompressBeforeEncryption(file: Resource) returns (compress: bool)
    ensures compress == MustCompress(file)
    ensures compress <==> IsText(file.contentType)
  {
    var mimetype := file.contentType;
    if mimetype == "" {
      return true;
    }
    compress := !HasPrefix(mimetype, "image") && !HasPrefix(mimetype, "video") && !HasPrefix(mimetype, "audio") && !(mimetype == "application/pdf");
  }

  /** encryptEPUBResource: declares the resource in the manifest, compresses it if asked to, encrypts it. */
  method EncryptEpubResource(t: Toolkit, compress: bool, c: Option<Cipher>, iv: Option<Block>, m: Manifest, file: Resource, slot: Slot)
    returns (ok: bool, written: File)
    modifies m
    ensures m.data == old(m.data) + [Data("http://www.w3.org/2001/04/xmlenc#aes256-cbc", Escaped(file.path), Some([Compression(if compress then 8 else 0, file.originalSize)]))]
    ensures
      var plain := if compress then t.deflate(Delivered(file.contents)) else Delivered(file.contents);
      && (ok <==> c.Some? && iv.Some? && (file.contents.complete || compress) && Takes(slot, EncryptedLength(|plain|)))
      && (ok ==> written.path == file.path && written.storageMethod == 0 && Encrypted(c.value, plain, written.body))
  {
    var uri := ResourcePathEscape(file.path);
    var compression := NO_COMPRESSION;
    if compress {
      compression := DEFLATE;
    }
    m.data := m.data + [Data(SIGNATURE, uri, Some([Compression(compression, file.originalSize)]))];
    var input: Source;
    if compress {
      // io.Copy into the compressor: its error is not looked at
      var buf := t.deflate(Delivered(file.contents));
      input := new Source([buf], EOF, false);
      assert Flat([buf]) == buf + Flat([]);
    } else {
      input := new Source(file.contents.chunks, if file.contents.complete then EOF else Failure, false);
    }
    ghost var plain := if compress then t.deflate(Delivered(file.contents)) else Delivered(file.contents);
    assert input.Rest() == plain;
    written := File(file.path, NO_COMPRESSION, []);
    if !slot.creates {
      return false, written;
    }
    var fw := new Sink(slot.room);
    var err := Encrypt(c, input, iv, fw);
    ok := err == Nil;
    written := File(file.path, NO_COMPRESSION, fw.out);
    if ok {
      ghost var out, pads :| fw.out == [] + out && EncryptedWith(c.value, iv.value, pads, plain, out);
      assert fw.out == out;
    }
  }

  /** Copy: the resource as it is. */
  method CopyResource(r: Resource, slot: Slot) returns (ok: bool, written: File)
    ensures ok <==> r.contents.complete && Takes(slot, |Delivered(r.contents)|)
    ensures written == File(r.path, r.storageMethod, Delivered(r.contents))
  {
    ok := slot.creates && r.contents.complete && (slot.room.None? || |Delivered(r.contents)| <= slot.room.value);
    written := File(r.path, r.storageMethod, Delivered(r.contents));
  }

  /** Do: `contentKey` is None when the key given does not decode or none can be generated, `ivs` are the answers of
      the random generator, `slots` what the archive writer makes of each file, and `given` is the manifest the EPUB came
      with, if any. Success is exact; the manifest keeps what it had, and gets one entry per selected resource, in order,
      up to a resource that fails. Whether mimetype and manifest could be written is not looked at. */
  method Do(t: Toolkit, contentKey: Option<seq<byte>>, ep: Epub, given: Manifest?, ivs: seq<Option<Block>>, slots: seq<Slot>,
            mimetypeFits: bool, manifestFits: bool, closes: bool)
    returns (ok: bool, manifest: Manifest, out: Output)
    requires Sorted(ep.cleartext) && |ivs| == |slots| == |ep.resources|
    modifies given
    ensures given != null ==> manifest == given
    ensures
      var listed := if given == null then [] else old(given.data);
      && (ok <==> && contentKey.Some? && closes
                  && forall i :: 0 <= i < |ep.resources| ==> Succeeds(t, t.newCipher(contentKey.value), ep, listed, ivs[i], slots[i], i))
      && (exists n :: 0 <= n <= |ep.resources| && manifest.data == listed + NewData(ep, listed, n))
      && (ok ==> manifest.data == listed + NewData(ep, listed, |ep.resources|))
      && (ok ==> Packed(t, t.newCipher(contentKey.value), ep, listed, out.files))
      && (ok ==> out.mimetype == mimetypeFits && out.manifest == if manifestFits then Some(manifest.data) else None)
  {
    hide Escaped, DataFor, Encrypted, EncryptedWith, PackedAs, Succeeds, NewData;
    ghost var listed := if given == null then [] else given.data;
    out := Output(false, [], None);
    if given == null {
      manifest := new Manifest();
    } else {
      manifest := given;
    }
    NothingNew(ep, listed);
    if contentKey.None? {
      return false, manifest, out;
    }
    var c := t.newCipher(contentKey.value);
    var files := [];
    for n := 0 to |ep.resources|
      invariant manifest.data == listed + NewData(ep, listed, n)
      invariant |files| == n
      invariant forall i :: 0 <= i < n ==> PackedAs(t, c, ep, listed, i, files[i])
      invariant forall i :: 0 <= i < n ==> Succeeds(t, c, ep, listed, ivs[i], slots[i], i)
    {
      var written;
      ok, written := PackResource(t, c, ep, listed, n, ivs[n], slots[n], manifest);
      if !ok {
        return;
      }
      files := files + [written];
    }
    out := Output(mimetypeFits, files, if manifestFits then Some(manifest.data) else None);
    ok := closes;
  }

  /** One turn of the loop of Do. */
  method PackResource(t: Toolkit, c: Option<Cipher>, ep: Epub, ghost listed: seq<Data>, n: nat, iv: Option<Block>, slot: Slot, manifest: Manifest)
    returns (ok: bool, written: File)
    requires Sorted(ep.cleartext) && n < |ep.resources| && manifest.data == listed + NewData(ep, listed, n)
    modifies manifest
    ensures ok <==> Succeeds(t, c, ep, listed, iv, slot, n)
    ensures manifest.data == listed + NewData(ep, listed, n + 1)
    ensures ok ==> PackedAs(t, c, ep, listed, n, written)
  {
    hide Escaped, DataFor, Encrypted;
    var res := ep.resources[n];
    var already := manifest.DataForFile(res.path);
    var can := CanEncrypt(ep, res.path);
    LookupDecides(ep, listed, n);
    if already.None? && can {
      var compress := MustCompressBeforeEncryption(res);
      ok, written := EncryptEpubResource(t, compress, c, iv, manifest, res, slot);
      assert listed + NewData(ep, listed, n + 1) == (listed + NewData(ep, listed, n)) + [DataOf(res)];
    } else {
      ok, written := CopyResource(res, slot);
    }
  }
}
