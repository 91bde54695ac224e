/** rwpm/w3cpublication.go: links and localized texts of a W3C manifest, printed in the shortest of three forms. */
module W3cCodec {
  import opened Options
  import opened Json

  datatype Localized = Localized(language: string, value: string, direction: string)

  /** The lists may be nil (None), which is not the same as empty. */
  datatype Link = Link(url: string, encodingFormat: string, name: Option<seq<Localized>>, description: Option<seq<Localized>>,
                       rel: Option<seq<string>>, integrity: string, duration: string, alternate: Links)

  datatype Links = NoLinks | LinkList(items: seq<Link>)

  function Und(literal: string): (r: Localized) { Localized("und", literal, "") }

  function Bare(url: string): (r: Link) { Link(url, "", None, None, None, "", "", NoLinks) }

  // ----- localized texts -----

  predicate ShortText(l: Localized) { l.language == "und" && l.value != "" && l.direction == "" }

  function PrintLocalized(l: Localized): (printed: Value) {
    if ShortText(l) then JString(l.value)
    else JObject(With(map["language" := JString(l.language), "value" := JString(l.value)], "direction", Text(l.direction)))
  }

  function PrintLocalizedAll(ls: seq<Localized>): (vs: seq<Value>)
    ensures |vs| == |ls|
  {
    seq(|ls|, i requires 0 <= i < |ls| => PrintLocalized(ls[i]))
  }

  /** MarshalJSON of a W3CMultiLanguage. */
  function PrintTexts(m: Option<seq<Localized>>): (printed: Value) {
    if m.None? then JNull
    else if |m.value| == 1 && m.value[0].language == "und" && m.value[0].value != "" && m.value[0].direction == "" then
      JString(m.value[0].value)
    else if |m.value| == 1 then PrintLocalized(m.value[0])
    else JArray(PrintLocalizedAll(m.value))
  }

  function ParseLocalized(v: Value): (parsed: Option<Localized>) {
    match v
    case JObject(fs) =>
      var language, value, direction := TextAt(fs, "language"), TextAt(fs, "value"), TextAt(fs, "direction");
      if language.Some? && value.Some? && direction.Some? then Some(Localized(language.value, value.value, direction.value)) else None
    case _ => var s := ReadText(v); if s.Some? then Some(Und(s.value)) else None
  }

  function ParseLocalizedAll(items: seq<Value>): (parsed: Option<seq<Localized>>) {
    if items == [] then Some([])
    else
      var init, last := ParseLocalizedAll(items[..|items| - 1]), ParseLocalized(items[|items| - 1]);
      if init.Some? && last.Some? then Some(init.value + [last.value]) else None
  }

  /** UnmarshalJSON of a W3CMultiLanguage; the list it makes is never nil. */
  function ParseTexts(v: Value): (parsed: Option<seq<Localized>>) {
    var literal := ReadText(v);
    if literal.Some? then Some([Und(literal.value)])
    else
      var loc := ParseLocalized(v);
      if loc.Some? then Some([loc.value]) else if v.JArray? then ParseLocalizedAll(v.items) else None
  }

  lemma LocalizedRoundTrip(l: Localized)
    ensures ParseLocalized(PrintLocalized(l)) == Some(l)
  {
  }

  lemma {:induction false} LocalizedAllRoundTrip(ls: seq<Localized>)
    ensures ParseLocalizedAll(PrintLocalizedAll(ls)) == Some(ls)
  {
    if ls != [] {
      var init := ls[..|ls| - 1];
      LocalizedAllRoundTrip(init);
      LocalizedRoundTrip(ls[|ls| - 1]);
      assert PrintLocalizedAll(ls)[..|ls| - 1] == PrintLocalizedAll(init);
      assert init + [ls[|ls| - 1]] == ls;
    }
  }

  /** Parsing undoes printing exactly when the list is not nil, whatever its length; nil comes back as one empty text. */
  lemma TextsRoundTrip(m: Option<seq<Localized>>)
    ensures ParseTexts(PrintTexts(m)) == m <==> m.Some?
    ensures m.None? ==> ParseTexts(PrintTexts(m)) == Some([Und("")])
  {
    if m.Some? {
      LocalizedAllRoundTrip(m.value);
      if |m.value| == 1 {
        LocalizedRoundTrip(m.value[0]);
        assert m.value == [m.value[0]];
      }
    }
  }

  // ----- links -----

  const URL := "url"
  const FORMAT := "encodingFormat"
  const NAME := "name"
  const DESCRIPTION := "description"
  const REL := "rel"
  const INTEGRITY := "integrity"
  const DURATION := "duration"
  const ALTERNATE := "alternate"

  lemma KeysDiffer()
    ensures URL != FORMAT && URL != NAME && URL != DESCRIPTION && URL != REL && URL != INTEGRITY && URL != DURATION && URL != ALTERNATE
    ensures FORMAT != NAME && FORMAT != DESCRIPTION && FORMAT != REL && FORMAT != INTEGRITY && FORMAT != DURATION && FORMAT != ALTERNATE
    ensures NAME != DESCRIPTION && NAME != REL && NAME != INTEGRITY && NAME != DURATION && NAME != ALTERNATE
    ensures DESCRIPTION != REL && DESCRIPTION != INTEGRITY && DESCRIPTION != DURATION && DESCRIPTION != ALTERNATE
    ensures REL != INTEGRITY && REL != DURATION && REL != ALTERNATE
    ensures INTEGRITY != DURATION && INTEGRITY != ALTERNATE
    ensures DURATION != ALTERNATE
  {
  }

  predicate ShortLink(l: Link) {
    l.url != "" && l.encodingFormat == "" && l.name == None && l.description == None && l.rel == None && l.integrity == ""
    && l.duration == "" && l.alternate == NoLinks
  }

  predicate Given<T>(list: Option<seq<T>>) { list.Some? && list.value != [] }

  function ListField<T>(list: Option<seq<T>>, printed: Value): (r: Option<Value>) { if Given(list) then Some(printed) else None }

  predicate HasAlternate(l: Link) { l.alternate.LinkList? && l.alternate.items != [] }

  function LinkFields(l: Link, alternate: Option<Value>): (r: map<string, Value>) {
    var fs := With(map[URL := JString(l.url)], FORMAT, Text(l.encodingFormat));
    var fs := With(fs, NAME, ListField(l.name, PrintTexts(l.name)));
    var fs := With(fs, DESCRIPTION, ListField(l.description, PrintTexts(l.description)));
    var fs := With(fs, REL, ListField(l.rel, PrintStrings(l.rel)));
    var fs := With(fs, INTEGRITY, Text(l.integrity));
    var fs := With(fs, DURATION, Text(l.duration));
    With(fs, ALTERNATE, alternate)
  }

  function PrintLink(l: Link): (printed: Value)
    decreases l
  {
    if ShortLink(l) then JString(l.url)
    else
      JObject(LinkFields(l, if HasAlternate(l) then Some(PrintLinks(l.alternate)) else None))
  }

  function PrintLinkAll(ls: seq<Link>): (vs: seq<Value>)
    ensures |vs| == |ls|
    decreases ls
  {
    seq(|ls|, i requires 0 <= i < |ls| => PrintLink(ls[i]))
  }

  /** MarshalJSON of W3CLinks. */
  function PrintLinks(m: Links): (printed: Value)
    decreases m
  {
    if m.NoLinks? then JNull
    else if |m.items| == 1 && ShortLink(m.items[0]) then JString(m.items[0].url)
    else if |m.items| == 1 then PrintLink(m.items[0])
    else JArray(PrintLinkAll(m.items))
  }

  /** A list field of an object: absent leaves it nil. */
  function OfField<T>(present: bool, parsed: Option<seq<T>>): (r: Option<Option<seq<T>>>) {
    if !present then Some(None) else if parsed.Some? then Some(parsed) else None
  }

  function ParseLink(v: Value): (parsed: Option<Link>)
    decreases v, 0
  {
    match v
    case JObject(fs) =>
      var url, format := TextAt(fs, URL), TextAt(fs, FORMAT);
      var name := OfField(NAME in fs, if NAME in fs then ParseTexts(fs[NAME]) else None);
      var description := OfField(DESCRIPTION in fs, if DESCRIPTION in fs then ParseTexts(fs[DESCRIPTION]) else None);
      var rel := OfField(REL in fs, if REL in fs then ParseStrings(fs[REL]) else None);
      var integrity, duration := TextAt(fs, INTEGRITY), TextAt(fs, DURATION);
      var alternate := if ALTERNATE in fs then ParseLinks(fs[ALTERNATE]) else Some(NoLinks);
      if url.Some? && format.Some? && name.Some? && description.Some? && rel.Some? && integrity.Some? && duration.Some? && alternate.Some?
      then Some(Link(url.value, format.value, name.value, description.value, rel.value, integrity.value, duration.value, alternate.value))
      else None
    case _ => var s := ReadText(v); if s.Some? then Some(Bare(s.value)) else None
  }

  function ParseLinkAll(items: seq<Value>): (parsed: Option<seq<Link>>)
    decreases items, 0
  {
    if items == [] then Some([])
    else
      var init, last := ParseLinkAll(items[..|items| - 1]), ParseLink(items[|items| - 1]);
      if init.Some? && last.Some? then Some(init.value + [last.value]) else None
  }

  /** UnmarshalJSON of W3CLinks; the list it makes is never nil. */
  function ParseLinks(v: Value): (parsed: Option<Links>)
    decreases v, 1
  {
    var literal := ReadText(v);
    if literal.Some? then Some(LinkList([Bare(literal.value)]))
    else
      var lnk := ParseLink(v);
      if lnk.Some? then Some(LinkList([lnk.value]))
      else if v.JArray? then
        var all := ParseLinkAll(v.items);
        if all.Some? then Some(LinkList(all.value)) else None
      else None
  }

  /** The link with every empty list in it, at any depth, made nil. */
  function Norm(l: Link): (r: Link)
    decreases l
  {
    l.(name := if Given(l.name) then l.name else None,
       description := if Given(l.description) then l.description else None,
       rel := if Given(l.rel) then l.rel else None,
       alternate := if HasAlternate(l) then LinkList(NormAll(l.alternate.items)) else NoLinks)
  }

  function NormAll(ls: seq<Link>): (r: seq<Link>)
    ensures |r| == |ls| && forall i :: 0 <= i < |ls| ==> r[i] == Norm(ls[i])
    decreases ls
  {
    if ls == [] then [] else NormAll(ls[..|ls| - 1]) + [Norm(ls[|ls| - 1])]
  }

  predicate Holds(fs: map<string, Value>, key: string, v: Option<Value>) {
    (key in fs <==> v.Some?) && (v.Some? ==> fs[key] == v.value)
  }

  lemma FieldsOfLink(l: Link, alternate: Option<Value>)
    ensures
      var fs := LinkFields(l, alternate);
      && Holds(fs, URL, Some(JString(l.url))) && Holds(fs, FORMAT, Text(l.encodingFormat))
      && Holds(fs, NAME, ListField(l.name, PrintTexts(l.name)))
      && Holds(fs, DESCRIPTION, ListField(l.description, PrintTexts(l.description)))
      && Holds(fs, REL, ListField(l.rel, PrintStrings(l.rel)))
      && Holds(fs, INTEGRITY, Text(l.integrity)) && Holds(fs, DURATION, Text(l.duration))
      && Holds(fs, ALTERNATE, alternate)
  {
    KeysDiffer();
    hide Given, Text, PrintTexts, PrintStrings, With, ListField, URL, FORMAT, NAME, DESCRIPTION, REL, INTEGRITY, DURATION, ALTERNATE;
  }

  lemma TextHeld(fs: map<string, Value>, key: string, s: string)
    requires Holds(fs, key, Text(s)) || Holds(fs, key, Some(JString(s)))
    ensures TextAt(fs, key) == Some(s)
  {
  }

  /** The fields of a printed link, one by one. */
  lemma PrintedFields(l: Link)
    requires !ShortLink(l)
    ensures
      PrintLink(l).JObject?
    ensures
      var fs := PrintLink(l).fields;
      && TextAt(fs, URL) == Some(l.url) && TextAt(fs, FORMAT) == Some(l.encodingFormat)
      && TextAt(fs, INTEGRITY) == Some(l.integrity) && TextAt(fs, DURATION) == Some(l.duration)
      && (NAME in fs <==> Given(l.name)) && (Given(l.name) ==> fs[NAME] == PrintTexts(l.name))
      && (DESCRIPTION in fs <==> Given(l.description)) && (Given(l.description) ==> fs[DESCRIPTION] == PrintTexts(l.description))
      && (REL in fs <==> Given(l.rel)) && (Given(l.rel) ==> fs[REL] == PrintStrings(l.rel))
      && (ALTERNATE in fs <==> HasAlternate(l)) && (HasAlternate(l) ==> fs[ALTERNATE] == PrintLinks(l.alternate))
  {
    var alternate := if HasAlternate(l) then Some(PrintLinks(l.alternate)) else None;
    var fs := LinkFields(l, alternate);
    FieldsOfLink(l, alternate);
    TextHeld(fs, URL, l.url);
    TextHeld(fs, FORMAT, l.encodingFormat);
    TextHeld(fs, INTEGRITY, l.integrity);
    TextHeld(fs, DURATION, l.duration);
    hide LinkFields, PrintTexts, PrintStrings, PrintLinks, TextAt, Text, URL, FORMAT, NAME, DESCRIPTION, REL, INTEGRITY, DURATION, ALTERNATE;
  }

  lemma ObjectIsRead(fs: map<string, Value>, l: Link)
    requires TextAt(fs, URL) == Some(l.url) && TextAt(fs, FORMAT) == Some(l.encodingFormat)
    requires TextAt(fs, INTEGRITY) == Some(l.integrity) && TextAt(fs, DURATION) == Some(l.duration)
    requires if NAME in fs then ParseTexts(fs[NAME]) == l.name && l.name.Some? else l.name == None
    requires if DESCRIPTION in fs then ParseTexts(fs[DESCRIPTION]) == l.description && l.description.Some? else l.description == None
    requires if REL in fs then ParseStrings(fs[REL]) == l.rel && l.rel.Some? else l.rel == None
    requires if ALTERNATE in fs then ParseLinks(fs[ALTERNATE]) == Some(l.alternate) else l.alternate == NoLinks
    ensures ParseLink(JObject(fs)) == Some(l)
  {
    hide TextAt, ParseTexts, ParseStrings, ParseLinks, URL, FORMAT, NAME, DESCRIPTION, REL, INTEGRITY, DURATION, ALTERNATE;
  }

  lemma {:induction false} LinkRoundTrip(l: Link)
    ensures ParseLink(PrintLink(l)) == Some(Norm(l))
    decreases l
  {
    if !ShortLink(l) {
      PrintedFields(l);
      TextsRoundTrip(l.name);
      TextsRoundTrip(l.description);
      StringsRoundTrip(l.rel);
      if HasAlternate(l) {
        LinksRoundTrip(l.alternate.items);
      }
      hide ParseLink, PrintLink, PrintLinks, PrintTexts, PrintStrings, ParseTexts, ParseStrings, ParseLinks, TextAt, ShortLink, NormAll;
      ObjectIsRead(PrintLink(l).fields, Norm(l));
    }
  }

  lemma PrintAllButLast(ls: seq<Link>)
    requires ls != []
    ensures PrintLinkAll(ls)[..|ls| - 1] == PrintLinkAll(ls[..|ls| - 1]) && PrintLinkAll(ls)[|ls| - 1] == PrintLink(ls[|ls| - 1])
  {
    hide PrintLink;
  }

  lemma {:induction false} LinkAllRoundTrip(ls: seq<Link>)
    ensures ParseLinkAll(PrintLinkAll(ls)) == Some(NormAll(ls))
    decreases ls, 0
  {
    if ls != [] {
      hide PrintLink, Norm, ParseLink, PrintLinkAll;
      LinkAllRoundTrip(ls[..|ls| - 1]);
      LinkRoundTrip(ls[|ls| - 1]);
      PrintAllButLast(ls);
    } else {
      assert PrintLinkAll(ls) == [] && NormAll(ls) == [];
    }
  }

  /** For every tree of links, parsing what was printed gives the tree back, up to empty lists that come back nil. */
  lemma {:induction false} LinksRoundTrip(ls: seq<Link>)
    ensures ParseLinks(PrintLinks(LinkList(ls))) == Some(LinkList(NormAll(ls)))
    decreases ls, 1
  {
    LinkAllRoundTrip(ls);
    if |ls| == 1 {
      LinkRoundTrip(ls[0]);
      assert NormAll(ls) == [Norm(ls[0])];
    }
  }

  /** No list in the link is empty without being nil, at any depth. */
  predicate NoEmptyList(l: Link)
    decreases l
  {
    l.name != Some([]) && l.description != Some([]) && l.rel != Some([])
    && (l.alternate.LinkList? ==> l.alternate.items != [] && NoEmptyLists(l.alternate.items))
  }

  predicate NoEmptyLists(ls: seq<Link>)
    decreases ls
  {
    forall i :: 0 <= i < |ls| ==> NoEmptyList(ls[i])
  }

  lemma {:induction false} NormChangesExactly(l: Link)
    ensures Norm(l) == l <==> NoEmptyList(l)
    decreases l
  {
    if l.alternate.LinkList? {
      forall i | 0 <= i < |l.alternate.items| ensures Norm(l.alternate.items[i]) == l.alternate.items[i] <==> NoEmptyList(l.alternate.items[i]) {
        NormChangesExactly(l.alternate.items[i]);
      }
      NormAllSame(l.alternate.items);
    }
  }

  lemma NormAllSame(ls: seq<Link>)
    ensures NormAll(ls) == ls <==> forall i :: 0 <= i < |ls| ==> Norm(ls[i]) == ls[i]
  {
    hide Norm;
    assert forall i :: 0 <= i < |ls| ==> NormAll(ls)[i] == Norm(ls[i]);
    if NormAll(ls) == ls {
      forall i | 0 <= i < |ls| ensures Norm(ls[i]) == ls[i] {
        assert NormAll(ls)[i] == ls[i];
      }
    }
  }

  /** Parsing undoes printing exactly for the trees without an empty list that is not nil; the list itself may be empty. */
  lemma LinksRoundTripExactly(ls: seq<Link>)
    ensures ParseLinks(PrintLinks(LinkList(ls))) == Some(LinkList(ls)) <==> NoEmptyLists(ls)
    ensures ParseLinks(PrintLinks(NoLinks)) == Some(LinkList([Bare("")]))
  {
    LinksRoundTrip(ls);
    NormAllSame(ls);
    forall i | 0 <= i < |ls| ensures Norm(ls[i]) == ls[i] <==> NoEmptyList(ls[i]) {
      NormChangesExactly(ls[i]);
    }
    hide Norm, NoEmptyList, PrintLinks, ParseLink;
  }

  // ----- the receivers of UnmarshalJSON -----

  class LinksVariable {
    var value: Links

    /** The receiver changes only when one of the three forms can be read. */
    method UnmarshalJSON(b: Value) returns (ok: bool)
      modifies this
      ensures ok <==> ParseLinks(b).Some?
      ensures value == if ok then ParseLinks(b).value else old(value)
    {
      var lnks: Links;
      var literal := ReadText(b);
      if literal.Some? {
        ok, lnks := true, LinkList([Bare(literal.value)]);
      } else {
        var lnk := ParseLink(b);
        if lnk.Some? {
          ok, lnks := true, LinkList([lnk.value]);
        } else {
          var all := if b.JArray? then ParseLinkAll(b.items) else None;
          ok, lnks := all.Some?, if all.Some? then LinkList(all.value) else NoLinks;
        }
      }
      if ok {
        value := lnks;
      }
    }
  }

  // ----- the forms, spelled out -----

  /** How a list of links is printed: one link with nothing but a URL as that URL, any other one as an object, several as an
      array. */
  lemma FormsOfLinks(ls: seq<Link>)
    ensures |ls| == 1 && ls[0].url != "" && ls[0] == Link(ls[0].url, "", None, None, None, "", "", NoLinks) ==>
              PrintLinks(LinkList(ls)) == JString(ls[0].url)
    ensures |ls| == 1 && (ls[0].url == "" || ls[0] != Link(ls[0].url, "", None, None, None, "", "", NoLinks)) ==>
              PrintLinks(LinkList(ls)).JObject?
    ensures |ls| != 1 ==> PrintLinks(LinkList(ls)).JArray? && |PrintLinks(LinkList(ls)).items| == |ls|
    ensures PrintLinks(NoLinks) == JNull
  {
  }

  /** The fields of a link that is printed as an object, under their own keys; empty ones are left out, but for the URL. */
  lemma FieldsByKey(l: Link)
    requires !ShortLink(l)
    ensures PrintLink(l).JObject?
    ensures
      var fs := PrintLink(l).fields;
      && "url" in fs && fs["url"] == JString(l.url)
      && Holds(fs, "encodingFormat", if l.encodingFormat == "" then None else Some(JString(l.encodingFormat)))
      && Holds(fs, "integrity", if l.integrity == "" then None else Some(JString(l.integrity)))
      && Holds(fs, "duration", if l.duration == "" then None else Some(JString(l.duration)))
      && ("name" in fs <==> l.name.Some? && l.name.value != [])
      && ("description" in fs <==> l.description.Some? && l.description.value != [])
      && ("rel" in fs <==> l.rel.Some? && l.rel.value != [])
      && ("alternate" in fs <==> l.alternate.LinkList? && l.alternate.items != [])
  {
    hide With, PrintTexts, PrintStrings, PrintLinks;
    var alternate := if HasAlternate(l) then Some(PrintLinks(l.alternate)) else None;
    FieldsOfLink(l, alternate);
    KeysAreSpelled();
    hide URL, FORMAT, NAME, DESCRIPTION, REL, INTEGRITY, DURATION, ALTERNATE, LinkFields;
  }

  lemma KeysAreSpelled()
    ensures URL == "url" && FORMAT == "encodingFormat" && NAME == "name" && DESCRIPTION == "description" && REL == "rel"
    ensures INTEGRITY == "integrity" && DURATION == "duration" && ALTERNATE == "alternate"
  {
  }

  /** How localized texts are printed: one undetermined text as that text, any other one as an object with its language and value,
      several as an array. */
  lemma FormsOfTexts(ls: seq<Localized>)
    ensures |ls| == 1 && ls[0].value != "" && ls[0] == Localized("und", ls[0].value, "") ==> PrintTexts(Some(ls)) == JString(ls[0].value)
    ensures |ls| == 1 && !(ls[0].value != "" && ls[0] == Localized("und", ls[0].value, "")) ==>
              var v := PrintTexts(Some(ls));
              && v.JObject? && "language" in v.fields && v.fields["language"] == JString(ls[0].language)
              && "value" in v.fields && v.fields["value"] == JString(ls[0].value)
              && ("direction" in v.fields <==> ls[0].direction != "")
    ensures |ls| != 1 ==> PrintTexts(Some(ls)).JArray? && |PrintTexts(Some(ls)).items| == |ls|
  {
  }

  /** What is read: a text is a URL, null an empty one; an object is one link, an array several; anything else is an error. */
  lemma FormsThatAreRead(s: string, items: seq<Value>)
    ensures ParseLinks(JString(s)) == Some(LinkList([Link(s, "", None, None, None, "", "", NoLinks)]))
    ensures ParseLinks(JNull) == Some(LinkList([Link("", "", None, None, None, "", "", NoLinks)]))
    ensures ParseLinks(JOther) == None
    ensures ParseLinks(JArray(items)).Some? ==> ParseLinks(JArray(items)).value.LinkList? && |ParseLinks(JArray(items)).value.items| == |items|
  {
    ReadAll(items);
  }

  lemma {:induction false} ReadAll(items: seq<Value>)
    ensures ParseLinkAll(items).Some? ==> |ParseLinkAll(items).value| == |items|
  {
    if items != [] {
      hide ParseLink;
      ReadAll(items[..|items| - 1]);
    }
  }

  /** An object is read unless one of its fields cannot be read; other fields are ignored. */
  lemma ObjectsThatAreRead(fs: map<string, Value>)
    ensures ParseLink(JObject(fs)).Some? <==>
            && TextAt(fs, "url").Some? && TextAt(fs, "encodingFormat").Some? && TextAt(fs, "integrity").Some? && TextAt(fs, "duration").Some?
            && ("name" in fs ==> ParseTexts(fs["name"]).Some?) && ("description" in fs ==> ParseTexts(fs["description"]).Some?)
            && ("rel" in fs ==> ParseStrings(fs["rel"]).Some?) && ("alternate" in fs ==> ParseLinks(fs["alternate"]).Some?)
    ensures ParseLocalized(JObject(fs)).Some? <==> TextAt(fs, "language").Some? && TextAt(fs, "value").Some? && TextAt(fs, "direction").Some?
  {
    KeysAreSpelled();
    hide URL, FORMAT, NAME, DESCRIPTION, REL, INTEGRITY, DURATION, ALTERNATE, TextAt, ParseTexts, ParseStrings, ParseLinks;
  }

  /** An array is read one element after the other, each as it is read alone. */
  lemma {:induction false} LinksAreReadOneByOne(items: seq<Value>)
    ensures ParseLinkAll(items).Some? <==> forall i :: 0 <= i < |items| ==> ParseLink(items[i]).Some?
    ensures ParseLinkAll(items).Some? ==>
              |ParseLinkAll(items).value| == |items| && forall i :: 0 <= i < |items| ==> ParseLinkAll(items).value[i] == ParseLink(items[i]).value
  {
    if items != [] {
      hide ParseLink;
      LinksAreReadOneByOne(items[..|items| - 1]);
      assert forall i :: 0 <= i < |items| - 1 ==> items[..|items| - 1][i] == items[i];
    }
  }

  /** An array is read one element after the other, each as it is read alone. */
  lemma {:induction false} TextsAreReadOneByOne(items: seq<Value>)
    ensures ParseLocalizedAll(items).Some? <==> forall i :: 0 <= i < |items| ==> ParseLocalized(items[i]).Some?
    ensures ParseLocalizedAll(items).Some? ==>
              |ParseLocalizedAll(items).value| == |items| && forall i :: 0 <= i < |items| ==> ParseLocalizedAll(items).value[i] == ParseLocalized(items[i]).value
  {
    if items != [] {
      hide ParseLocalized;
      TextsAreReadOneByOne(items[..|items| - 1]);
      assert forall i :: 0 <= i < |items| - 1 ==> items[..|items| - 1][i] == items[i];
    }
  }

  /** An element of an array is printed as a list of its own would be. */
  lemma ElementsPrintAlone(ls: seq<Link>, ts: seq<Localized>, i: nat)
    ensures |ls| > 1 && i < |ls| ==>
              PrintLinks(LinkList(ls)).JArray? && |PrintLinks(LinkList(ls)).items| == |ls| && PrintLinks(LinkList(ls)).items[i] == PrintLinks(LinkList([ls[i]]))
    ensures |ts| > 1 && i < |ts| ==>
              PrintTexts(Some(ts)).JArray? && |PrintTexts(Some(ts)).items| == |ts| && PrintTexts(Some(ts)).items[i] == PrintTexts(Some([ts[i]]))
  {
    if |ls| > 1 && i < |ls| {
      assert PrintLinkAll(ls)[i] == PrintLink(ls[i]) && [ls[i]][0] == ls[i];
      hide PrintLinkAll;
    }
    if |ts| > 1 && i < |ts| {
      assert PrintLocalizedAll(ts)[i] == PrintLocalized(ts[i]) && [ts[i]][0] == ts[i];
    }
  }
}
