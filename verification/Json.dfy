/** JSON values, and Go's rules for reading strings and for leaving out empty fields. */
module Json {
  import opened Options

  /** An object holds its members by key; numbers and booleans are all alike here. */
  datatype Value = JNull | JOther | JString(text: string) | JArray(items: seq<Value>) | JObject(fields: map<string, Value>)

  /** Reading into a string that is empty so far: null changes nothing and is no error. */
  function ReadText(v: Value): (r: Option<string>) {
    match v
    case JString(s) => Some(s)
    case JNull => Some("")
    case _ => None
  }

  /** The field of an object read as a string, empty when absent. */
  function TextAt(fields: map<string, Value>, key: string): (r: Option<string>) {
    if key in fields then ReadText(fields[key]) else Some("")
  }

  /** The object with one more field, left out when there is nothing in it. */
  function With(fields: map<string, Value>, key: string, v: Option<Value>): (r: map<string, Value>)
    ensures v.None? ==> r == fields
    ensures v.Some? ==> key in r && r[key] == v.value
    ensures forall k :: k != key ==> (k in r <==> k in fields) && (k in r ==> r[k] == fields[k])
  {
    if v.None? then fields else fields[key := v.value]
  }

  /** A string, for a field that is left out when it is empty. */
  function Text(s: string): (r: Option<Value>) { if s == "" then None else Some(JString(s)) }

  function ReadTexts(items: seq<Value>): (r: Option<seq<string>>)
    ensures r.Some? ==> |r.value| == |items|
  {
    if items == [] then Some([])
    else
      var init, last := ReadTexts(items[..|items| - 1]), ReadText(items[|items| - 1]);
      if init.Some? && last.Some? then Some(init.value + [last.value]) else None
  }

  function Texts(ss: seq<string>): (vs: seq<Value>)
    ensures |vs| == |ss| && forall i :: 0 <= i < |ss| ==> vs[i] == JString(ss[i])
  {
    seq(|ss|, i requires 0 <= i < |ss| => JString(ss[i]))
  }

  lemma {:induction false} ReadTextsUndoes(ss: seq<string>)
    ensures ReadTexts(Texts(ss)) == Some(ss)
  {
    if ss != [] {
      var init := ss[..|ss| - 1];
      ReadTextsUndoes(init);
      assert Texts(ss)[..|ss| - 1] == Texts(init);
      assert init + [ss[|ss| - 1]] == ss;
    }
  }

  // ----- rwpm/metadata.go, MultiString -----

  /** MarshalJSON of a MultiString. */
  function PrintStrings(m: Option<seq<string>>): (printed: Value) {
    var items := if m.Some? then m.value else [];
    if |items| == 1 then JString(items[0]) else if items == [] then JNull else JArray(Texts(items))
  }

  /** UnmarshalJSON of a MultiString; the list it makes is never nil. */
  function ParseStrings(v: Value): (parsed: Option<seq<string>>) {
    match v
    case JArray(items) => ReadTexts(items)
    case _ => var s := ReadText(v); if s.Some? then Some([s.value]) else None
  }

  /** Parsing undoes printing exactly for the non-empty lists: nil and empty ones are printed as null. */
  lemma StringsRoundTrip(m: Option<seq<string>>)
    ensures ParseStrings(PrintStrings(m)) == m <==> m.Some? && m.value != []
    ensures m == None || m == Some([]) ==> ParseStrings(PrintStrings(m)) == Some([""])
  {
    if m.Some? {
      ReadTextsUndoes(m.value);
      assert |m.value| == 1 ==> m.value == [m.value[0]];
    }
  }

  /** How strings are printed: one as itself, none as null, several as an array of them. */
  lemma FormsOfStrings(ss: seq<string>)
    ensures |ss| == 1 ==> PrintStrings(Some(ss)) == JString(ss[0])
    ensures |ss| > 1 ==> PrintStrings(Some(ss)).JArray? && |PrintStrings(Some(ss)).items| == |ss|
                         && forall i :: 0 <= i < |ss| ==> PrintStrings(Some(ss)).items[i] == JString(ss[i])
    ensures PrintStrings(Some([])) == JNull && PrintStrings(None) == JNull
  {
  }

  class StringsVariable {
    var value: Option<seq<string>>

    method UnmarshalJSON(b: Value) returns (ok: bool)
      modifies this
      ensures ok <==> ParseStrings(b).Some?
      ensures value == if ok then ParseStrings(b) else old(value)
    {
      var literal := ReadText(b);
      var mstring := if literal.Some? then Some([literal.value]) else if b.JArray? then ReadTexts(b.items) else None;
      ok := mstring.Some?;
      if ok {
        value := mstring;
      }
    }

    method MarshalJSON() returns (b: Value)
      ensures b == PrintStrings(value)
    {
      var items := if value.Some? then value.value else [];
      if |items| == 1 {
        return JString(items[0]);
      }
      var mstring: seq<string> := [];
      for i := 0 to |items|
        invariant mstring == items[..i]
      {
        mstring := mstring + [items[i]];
      }
      b := if mstring == [] then JNull else JArray(Texts(mstring));
    }
  }
}
