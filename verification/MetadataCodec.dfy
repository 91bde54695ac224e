/** rwpm/metadata.go: subjects, contributors and multi-language names, printed in the shortest form. */
module MetadataCodec {
  import opened Options
  import opened Json

  // ----- Subjects -----

  datatype Subject = Subject(name: string, sortAs: string, scheme: string, code: string)

  predicate ShortSubject(s: Subject) { s.name != "" && s.sortAs == "" && s.scheme == "" && s.code == "" }

  function PrintSubject(s: Subject): (printed: Value) {
    if ShortSubject(s) then JString(s.name)
    else JObject(With(With(With(map["name" := JString(s.name)], "sortAs", Text(s.sortAs)), "scheme", Text(s.scheme)), "code", Text(s.code)))
  }

  function PrintSubjectAll(ss: seq<Subject>): (vs: seq<Value>)
    ensures |vs| == |ss|
  {
    seq(|ss|, i requires 0 <= i < |ss| => PrintSubject(ss[i]))
  }

  /** MarshalJSON of Subjects. */
  function PrintSubjects(m: Option<seq<Subject>>): (printed: Value) {
    if m.None? then JNull
    else if |m.value| == 1 && ShortSubject(m.value[0]) then JString(m.value[0].name)
    else if |m.value| == 1 then PrintSubject(m.value[0])
    else JArray(PrintSubjectAll(m.value))
  }

  function ParseSubject(v: Value): (parsed: Option<Subject>) {
    match v
    case JObject(fs) =>
      var name, sortAs, scheme, code := TextAt(fs, "name"), TextAt(fs, "sortAs"), TextAt(fs, "scheme"), TextAt(fs, "code");
      if name.Some? && sortAs.Some? && scheme.Some? && code.Some? then Some(Subject(name.value, sortAs.value, scheme.value, code.value)) else None
    case _ => var s := ReadText(v); if s.Some? then Some(Subject(s.value, "", "", "")) else None
  }

  function ParseSubjectAll(items: seq<Value>): (parsed: Option<seq<Subject>>) {
    if items == [] then Some([])
    else
      var init, last := ParseSubjectAll(items[..|items| - 1]), ParseSubject(items[|items| - 1]);
      if init.Some? && last.Some? then Some(init.value + [last.value]) else None
  }

  /** UnmarshalJSON of Subjects; the list it makes is never nil. */
  function ParseSubjects(v: Value): (parsed: Option<seq<Subject>>) {
    var literal := ReadText(v);
    if literal.Some? then Some([Subject(literal.value, "", "", "")])
    else
      var sbj := ParseSubject(v);
      if sbj.Some? then Some([sbj.value]) else if v.JArray? then ParseSubjectAll(v.items) else None
  }

  lemma SubjectRoundTrip(s: Subject)
    ensures ParseSubject(PrintSubject(s)) == Some(s)
  {
    if !ShortSubject(s) {
      var fs := PrintSubject(s).fields;
      assert TextAt(fs, "name") == Some(s.name);
      assert TextAt(fs, "sortAs") == Some(s.sortAs);
      assert TextAt(fs, "scheme") == Some(s.scheme);
      assert TextAt(fs, "code") == Some(s.code);
    }
  }

  lemma SubjectsButLast(ss: seq<Subject>)
    requires ss != []
    ensures PrintSubjectAll(ss)[..|ss| - 1] == PrintSubjectAll(ss[..|ss| - 1])
    ensures PrintSubjectAll(ss)[|ss| - 1] == PrintSubject(ss[|ss| - 1])
  {
    hide PrintSubject;
  }

  lemma {:induction false} SubjectAllRoundTrip(ss: seq<Subject>)
    ensures ParseSubjectAll(PrintSubjectAll(ss)) == Some(ss)
  {
    if ss != [] {
      hide PrintSubject, ParseSubject, PrintSubjectAll;
      SubjectAllRoundTrip(ss[..|ss| - 1]);
      SubjectRoundTrip(ss[|ss| - 1]);
      SubjectsButLast(ss);
      assert ss[..|ss| - 1] + [ss[|ss| - 1]] == ss;
    }
  }

  /** Parsing undoes printing exactly when the list is not nil; nil comes back as one subject without a name. */
  lemma SubjectsRoundTrip(m: Option<seq<Subject>>)
    ensures ParseSubjects(PrintSubjects(m)) == m <==> m.Some?
    ensures m.None? ==> ParseSubjects(PrintSubjects(m)) == Some([Subject("", "", "", "")])
  {
    if m.Some? {
      SubjectAllRoundTrip(m.value);
      if |m.value| == 1 {
        SubjectRoundTrip(m.value[0]);
        assert m.value == [m.value[0]];
      }
    }
  }

  // ----- MultiLanguage -----

  /** The values by language; the map may be nil (None), which is not the same as empty. */
  type MultiLanguage = Option<map<string, string>>

  function Values(m: MultiLanguage): (r: map<string, string>) { if m.Some? then m.value else map[] }

  function At(m: MultiLanguage, language: string): (r: string) { if language in Values(m) then Values(m)[language] else "" }

  function Und(literal: string): (r: map<string, string>) { map["und" := literal] }

  /** The only value of a map of one. */
  ghost predicate IsSole(m: map<string, string>, v: string) { exists k :: m == map[k := v] }

  ghost function Sole(m: map<string, string>): (v: string)
    requires |m| == 1
    ensures IsSole(m, v)
  {
    OneKey(m);
    var v :| IsSole(m, v);
    v
  }

  lemma OneKey(m: map<string, string>)
    requires |m| == 1
    ensures exists v :: IsSole(m, v)
  {
    assert |m.Keys| == 1;
    var k :| k in m;
    assert m.Keys == {k} by { assert |m.Keys - {k}| == 0; }
    assert m == map[k := m[k]];
    assert IsSole(m, m[k]);
  }

  lemma SoleIs(m: map<string, string>, k: string)
    requires |m| == 1 && k in m
    ensures m == map[k := m[k]] && Sole(m) == m[k]
  {
    var j :| m == map[j := Sole(m)];
    assert j == k;
  }

  /** Text of a MultiLanguage. */
  ghost function TextOf(m: MultiLanguage): (r: string) {
    if At(m, "und") != "" then At(m, "und") else if |Values(m)| == 1 then Sole(Values(m)) else ""
  }

  function PrintName(m: MultiLanguage): (printed: Value) {
    if |Values(m)| > 1 || At(m, "und") == "" then JObject(map k | k in Values(m) :: JString(Values(m)[k]))
    else JString(At(m, "und"))
  }

  /** UnmarshalJSON of a MultiLanguage; the map it makes is never nil. */
  function ParseName(v: Value): (parsed: Option<map<string, string>>) {
    var literal := ReadText(v);
    if literal.Some? then Some(Und(literal.value))
    else if v.JObject? && forall k :: k in v.fields ==> ReadText(v.fields[k]).Some? then
      Some(map k | k in v.fields :: ReadText(v.fields[k]).value)
    else None
  }

  /** Parsing undoes printing for every map; a nil one comes back empty. */
  lemma NameRoundTrip(m: MultiLanguage)
    ensures ParseName(PrintName(m)) == Some(Values(m))
  {
    if |Values(m)| > 1 || At(m, "und") == "" {
      var back := ParseName(PrintName(m)).value;
      assert back == Values(m);
    } else {
      SoleIs(Values(m), "und");
    }
  }

  // ----- Contributors -----

  datatype Contributor = Contributor(name: MultiLanguage, sortAs: string, identifier: string, role: string)

  predicate Alone(c: Contributor) { c.identifier == "" && c.sortAs == "" && c.role == "" }

  function Named(literal: string): (r: Contributor) { Contributor(Some(Und(literal)), "", "", "") }

  function PrintContributor(c: Contributor): (printed: Value) {
    if At(c.name, "und") != "" && Alone(c) then JString(At(c.name, "und"))
    else
      JObject(With(With(With(With(map[], "name", if Values(c.name) == map[] then None else Some(PrintName(c.name))),
                             "sortAs", Text(c.sortAs)), "identifier", Text(c.identifier)), "role", Text(c.role)))
  }

  function PrintContributorAll(cs: seq<Contributor>): (vs: seq<Value>)
    ensures |vs| == |cs|
  {
    seq(|cs|, i requires 0 <= i < |cs| => PrintContributor(cs[i]))
  }

  /** MarshalJSON of Contributors: its literal form is wider than that of one Contributor. */
  ghost function PrintContributors(m: Option<seq<Contributor>>): (printed: Value) {
    if m.None? then JNull
    else if |m.value| == 1 && TextOf(m.value[0].name) != "" && Alone(m.value[0]) then JString(TextOf(m.value[0].name))
    else if |m.value| == 1 then PrintContributor(m.value[0])
    else JArray(PrintContributorAll(m.value))
  }

  function ParseContributor(v: Value): (parsed: Option<Contributor>) {
    match v
    case JObject(fs) =>
      var name := if "name" in fs then ParseName(fs["name"]) else None;
      var sortAs, identifier, role := TextAt(fs, "sortAs"), TextAt(fs, "identifier"), TextAt(fs, "role");
      if ("name" in fs ==> name.Some?) && sortAs.Some? && identifier.Some? && role.Some?
      then Some(Contributor(name, sortAs.value, identifier.value, role.value)) else None
    case _ => var s := ReadText(v); if s.Some? then Some(Named(s.value)) else None
  }

  function ParseContributorAll(items: seq<Value>): (parsed: Option<seq<Contributor>>) {
    if items == [] then Some([])
    else
      var init, last := ParseContributorAll(items[..|items| - 1]), ParseContributor(items[|items| - 1]);
      if init.Some? && last.Some? then Some(init.value + [last.value]) else None
  }

  /** UnmarshalJSON of Contributors; the list it makes is never nil. */
  function ParseContributors(v: Value): (parsed: Option<seq<Contributor>>) {
    var literal := ReadText(v);
    if literal.Some? then Some([Named(literal.value)])
    else
      var ctor := ParseContributor(v);
      if ctor.Some? then Some([ctor.value]) else if v.JArray? then ParseContributorAll(v.items) else None
  }

  /** The literal under which a contributor is printed, alone in its list or not; empty when it is printed as an object. */
  ghost function ShortName(c: Contributor, single: bool): (r: string) {
    if !Alone(c) then "" else if single then TextOf(c.name) else At(c.name, "und")
  }

  /** What comes back of a contributor: the short name only, or everything, an empty name being nil. */
  ghost function Back(c: Contributor, single: bool): (r: Contributor) {
    if ShortName(c, single) != "" then Named(ShortName(c, single))
    else c.(name := if Values(c.name) == map[] then None else c.name)
  }

  ghost function BackAll(cs: seq<Contributor>, single: bool): (r: seq<Contributor>)
    ensures |r| == |cs| && forall i :: 0 <= i < |cs| ==> r[i] == Back(cs[i], single)
  {
    if cs == [] then [] else BackAll(cs[..|cs| - 1], single) + [Back(cs[|cs| - 1], single)]
  }

  lemma ContributorRoundTrip(c: Contributor)
    ensures ParseContributor(PrintContributor(c)) == Some(Back(c, false))
  {
    NameRoundTrip(c.name);
    hide PrintName, ParseName;
  }

  lemma {:induction false} ContributorAllRoundTrip(cs: seq<Contributor>)
    ensures ParseContributorAll(PrintContributorAll(cs)) == Some(BackAll(cs, false))
  {
    if cs != [] {
      hide PrintContributor, ParseContributor, Back;
      ContributorAllRoundTrip(cs[..|cs| - 1]);
      ContributorRoundTrip(cs[|cs| - 1]);
      assert PrintContributorAll(cs)[..|cs| - 1] == PrintContributorAll(cs[..|cs| - 1]);
    }
  }

  /** What comes back of any list of contributors. */
  lemma ContributorsComeBack(cs: seq<Contributor>)
    ensures ParseContributors(PrintContributors(Some(cs))) == Some(BackAll(cs, |cs| == 1))
    ensures ParseContributors(PrintContributors(None)) == Some([Named("")])
  {
    ContributorAllRoundTrip(cs);
    if |cs| == 1 {
      ContributorRoundTrip(cs[0]);
      assert BackAll(cs, true) == [Back(cs[0], true)];
    }
    hide PrintContributor, ParseContributor, PrintContributorAll;
  }

  /** Nothing of the contributor is lost: no value but the one the literal stands for, under its own language. */
  ghost predicate Whole(c: Contributor, single: bool) {
    if ShortName(c, single) != "" then c.name == Some(Und(ShortName(c, single))) else c.name != Some(map[])
  }

  /** Parsing undoes printing exactly when nothing is lost: a lone contributor of a single name in another language than
      "und" loses the language, one of several in a list loses all but "und". */
  lemma ContributorsRoundTripExactly(cs: seq<Contributor>)
    ensures ParseContributors(PrintContributors(Some(cs))) == Some(cs) <==>
            forall i :: 0 <= i < |cs| ==> Whole(cs[i], |cs| == 1)
  {
    ContributorsComeBack(cs);
    forall i | 0 <= i < |cs| ensures Back(cs[i], |cs| == 1) == cs[i] <==> Whole(cs[i], |cs| == 1) {
      BackIsWhole(cs[i], |cs| == 1);
    }
    hide Back, Whole, PrintContributors, ParseContributors;
    assert BackAll(cs, |cs| == 1) == cs <==> forall i :: 0 <= i < |cs| ==> BackAll(cs, |cs| == 1)[i] == cs[i];
  }

  lemma BackIsWhole(c: Contributor, single: bool)
    ensures Back(c, single) == c <==> Whole(c, single)
  {
  }

  lemma BackSaysTheSame(c: Contributor, single: bool)
    ensures TextOf(Back(c, single).name) == TextOf(c.name)
    ensures ShortName(Back(c, single), single) == ShortName(c, single)
    ensures Back(Back(c, single), single) == Back(c, single)
  {
  }

  lemma PrintsTheSame(c: Contributor)
    ensures PrintContributor(Back(c, false)) == PrintContributor(c)
    ensures !(TextOf(c.name) != "" && Alone(c)) ==> PrintContributor(Back(c, true)) == PrintContributor(c)
  {
    hide PrintName;
  }

  /** Whatever is lost, for any list: every contributor that comes back has the same text and the same other fields, and
      printing again gives the same JSON. */
  lemma TextSurvives(cs: seq<Contributor>)
    ensures
      var back := ParseContributors(PrintContributors(Some(cs)));
      && back.Some? && |back.value| == |cs|
      && (forall i :: 0 <= i < |cs| ==>
            TextOf(back.value[i].name) == TextOf(cs[i].name) && back.value[i].(name := cs[i].name) == cs[i])
      && PrintContributors(back) == PrintContributors(Some(cs))
  {
    ContributorsComeBack(cs);
    var back := BackAll(cs, |cs| == 1);
    forall i | 0 <= i < |cs|
      ensures TextOf(back[i].name) == TextOf(cs[i].name) && back[i].(name := cs[i].name) == cs[i]
      ensures PrintContributor(Back(cs[i], false)) == PrintContributor(cs[i])
    {
      BackSaysTheSame(cs[i], |cs| == 1);
      PrintsTheSame(cs[i]);
    }
    if |cs| == 1 {
      BackSaysTheSame(cs[0], true);
      PrintsTheSame(cs[0]);
    } else {
      assert PrintContributorAll(back) == PrintContributorAll(cs);
    }
  }

  // ----- the receiver of UnmarshalJSON -----

  class ContributorsVariable {
    var value: Option<seq<Contributor>>

    /** The receiver changes only when one of the three forms can be read. */
    method UnmarshalJSON(b: Value) returns (ok: bool)
      modifies this
      ensures ok <==> ParseContributors(b).Some?
      ensures value == if ok then ParseContributors(b) else old(value)
    {
      var ctors: Option<seq<Contributor>> := None;
      var literal := ReadText(b);
      if literal.Some? {
        var name := SetDefault(None, literal.value);
        ctors := Some([Contributor(name, "", "", "")]);
      } else {
        var ctor := ParseContributor(b);
        if ctor.Some? {
          ctors := Some([ctor.value]);
        } else if b.JArray? {
          ctors := ParseContributorAll(b.items);
        }
      }
      ok := ctors.Some?;
      if ok {
        value := ctors;
      }
    }
  }

  method SetDefault(m: MultiLanguage, literal: string) returns (r: MultiLanguage)
    ensures literal != "" ==> TextOf(r) == literal
    ensures r == Some(Values(m)["und" := literal])
  {
    var made := if m.None? then map[] else m.value;
    r := Some(made["und" := literal]);
  }

  // ----- the forms, spelled out -----

  /** How subjects are printed: one with nothing but a name as that name, any other one as an object, several as an array. */
  lemma FormsOfSubjects(ss: seq<Subject>)
    ensures |ss| == 1 && ss[0].name != "" && ss[0] == Subject(ss[0].name, "", "", "") ==> PrintSubjects(Some(ss)) == JString(ss[0].name)
    ensures |ss| == 1 && !(ss[0].name != "" && ss[0] == Subject(ss[0].name, "", "", "")) ==>
              var v := PrintSubjects(Some(ss));
              && v.JObject? && "name" in v.fields && v.fields["name"] == JString(ss[0].name)
              && ("sortAs" in v.fields <==> ss[0].sortAs != "") && ("scheme" in v.fields <==> ss[0].scheme != "")
              && ("code" in v.fields <==> ss[0].code != "")
    ensures |ss| != 1 ==> PrintSubjects(Some(ss)).JArray? && |PrintSubjects(Some(ss)).items| == |ss|
    ensures PrintSubjects(None) == JNull
  {
  }

  /** How a name in several languages is printed: one undetermined text as that text, anything else by language. */
  lemma FormsOfNames(m: MultiLanguage)
    ensures m.Some? && |m.value| == 1 && "und" in m.value && m.value["und"] != "" ==> PrintName(m) == JString(m.value["und"])
    ensures !(m.Some? && |m.value| == 1 && "und" in m.value && m.value["und"] != "") ==>
              PrintName(m).JObject? && PrintName(m).fields.Keys == Values(m).Keys
              && forall k :: k in Values(m) ==> PrintName(m).fields[k] == JString(Values(m)[k])
  {
  }

  /** The text of a name: that in an undetermined language, else the only one, else none. */
  lemma TextIs(m: map<string, string>, k: string)
    ensures "und" in m && m["und"] != "" ==> TextOf(Some(m)) == m["und"]
    ensures m == map[k := if k in m then m[k] else ""] && k in m ==> TextOf(Some(m)) == m[k]
    ensures !("und" in m && m["und"] != "") && |m| != 1 ==> TextOf(Some(m)) == ""
    ensures TextOf(None) == ""
  {
    if k in m && m == map[k := m[k]] {
      assert |map[k := m[k]]| == 1;
      SoleIs(m, k);
    }
  }

  /** How contributors are printed: one with nothing but names as its text, if it has one, any other one as an object or as its
      undetermined name, several as an array. */
  lemma FormsOfContributors(cs: seq<Contributor>)
    ensures |cs| == 1 && TextOf(cs[0].name) != "" && cs[0].sortAs == cs[0].identifier == cs[0].role == "" ==>
              PrintContributors(Some(cs)) == JString(TextOf(cs[0].name))
    ensures |cs| == 1 && !(TextOf(cs[0].name) != "" && cs[0].sortAs == cs[0].identifier == cs[0].role == "") ==>
              var v := PrintContributors(Some(cs));
              && v.JObject?
              && ("name" in v.fields <==> cs[0].name.Some? && cs[0].name.value != map[])
              && ("sortAs" in v.fields <==> cs[0].sortAs != "") && ("identifier" in v.fields <==> cs[0].identifier != "")
              && ("role" in v.fields <==> cs[0].role != "")
    ensures |cs| != 1 ==> PrintContributors(Some(cs)).JArray? && |PrintContributors(Some(cs)).items| == |cs|
    ensures PrintContributors(None) == JNull
  {
    hide PrintName;
  }

  /** An object is read unless one of its fields cannot be read; other fields are ignored. */
  lemma ObjectsThatAreRead(fs: map<string, Value>)
    ensures ParseSubject(JObject(fs)).Some? <==>
            TextAt(fs, "name").Some? && TextAt(fs, "sortAs").Some? && TextAt(fs, "scheme").Some? && TextAt(fs, "code").Some?
    ensures ParseContributor(JObject(fs)).Some? <==>
            && ("name" in fs ==> ParseName(fs["name"]).Some?)
            && TextAt(fs, "sortAs").Some? && TextAt(fs, "identifier").Some? && TextAt(fs, "role").Some?
  {
    hide TextAt, ParseName;
  }

  /** An array is read one element after the other, each as it is read alone. */
  lemma {:induction false} SubjectsAreReadOneByOne(items: seq<Value>)
    ensures ParseSubjectAll(items).Some? <==> forall i :: 0 <= i < |items| ==> ParseSubject(items[i]).Some?
    ensures ParseSubjectAll(items).Some? ==>
              |ParseSubjectAll(items).value| == |items| && forall i :: 0 <= i < |items| ==> ParseSubjectAll(items).value[i] == ParseSubject(items[i]).value
  {
    if items != [] {
      hide ParseSubject;
      SubjectsAreReadOneByOne(items[..|items| - 1]);
      assert forall i :: 0 <= i < |items| - 1 ==> items[..|items| - 1][i] == items[i];
    }
  }

  /** An array is read one element after the other, each as it is read alone. */
  lemma {:induction false} ContributorsAreReadOneByOne(items: seq<Value>)
    ensures ParseContributorAll(items).Some? <==> forall i :: 0 <= i < |items| ==> ParseContributor(items[i]).Some?
    ensures ParseContributorAll(items).Some? ==>
              |ParseContributorAll(items).value| == |items| && forall i :: 0 <= i < |items| ==> ParseContributorAll(items).value[i] == ParseContributor(items[i]).value
  {
    if items != [] {
      hide ParseContributor;
      ContributorsAreReadOneByOne(items[..|items| - 1]);
      assert forall i :: 0 <= i < |items| - 1 ==> items[..|items| - 1][i] == items[i];
    }
  }

  /** An element of an array of subjects is printed as a list of its own would be; a contributor in an array is printed as its
      undetermined name only where it has one, and nothing else but names. */
  lemma ElementsOfArrays(ss: seq<Subject>, cs: seq<Contributor>, i: nat)
    ensures |ss| > 1 && i < |ss| ==>
              PrintSubjects(Some(ss)).JArray? && |PrintSubjects(Some(ss)).items| == |ss| && PrintSubjects(Some(ss)).items[i] == PrintSubjects(Some([ss[i]]))
    ensures |cs| > 1 && i < |cs| ==>
              var v, m := PrintContributors(Some(cs)), Values(cs[i].name);
              && v.JArray? && |v.items| == |cs|
              && if "und" in m && m["und"] != "" && cs[i].sortAs == cs[i].identifier == cs[i].role == ""
                 then v.items[i] == JString(m["und"])
                 else v.items[i].JObject?
  {
  }
}
