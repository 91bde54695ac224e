/** xmlenc/encryption.go, ResourcePathEscape, and the two escapings of net/url it and the packaging code rely on. */
module Urls {
  import opened Options
  import opened Bytes

  type Path = seq<byte>

  const SLASH: byte := 47
  const PERCENT: byte := 37
  const PLUS: byte := 43
  const SPACE: byte := 32

  predicate Digit(b: byte) { 48 <= b <= 57 }

  /** The bytes url.PathEscape leaves alone: unreserved characters (section 2.3 of RFC 3986) and $ & + : = @ */
  predicate Safe(b: byte) {
    || Digit(b) || 65 <= b <= 90 || 97 <= b <= 122
    || b == 45 || b == 95 || b == 46 || b == 126
    || b == 36 || b == 38 || b == 43 || b == 58 || b == 61 || b == 64
  }

  function HexDigit(n: int): (r: byte)
    requires 0 <= n < 16
  {
    if n < 10 then (48 + n) as byte else (55 + n) as byte
  }

  function FromHex(b: byte): (r: Option<int>) {
    if Digit(b) then Some(b as int - 48)
    else if 65 <= b <= 70 then Some(b as int - 55)
    else if 97 <= b <= 102 then Some(b as int - 87)
    else None
  }

  function EscapeByte(b: byte): (e: Path)
    ensures e != [] && SLASH !in e
  {
    if Safe(b) then [b] else [PERCENT, HexDigit(b as int / 16), HexDigit(b as int % 16)]
  }

  /** url.PathEscape */
  function PathEscape(s: Path): (r: Path) {
    if s == [] then [] else EscapeByte(s[0]) + PathEscape(s[1..])
  }

  /** strings.Split(s, "/") */
  function Split(s: Path): (segments: seq<Path>)
    ensures segments != []
  {
    if s == [] then [[]]
    else
      var rest := Split(s[1..]);
      if s[0] == SLASH then [[]] + rest else [[s[0]] + rest[0]] + rest[1..]
  }

  /** strings.Join(segments, "/") */
  function Join(segments: seq<Path>): (r: Path)
    requires segments != []
  {
    if |segments| == 1 then segments[0] else segments[0] + [SLASH] + Join(segments[1..])
  }

  /** The escaped path, byte by byte: slashes stay, everything else is escaped as in a segment. */
  function Escaped(path: Path): (r: Path) {
    if path == [] then []
    else (if path[0] == SLASH then [SLASH] else EscapeByte(path[0])) + Escaped(path[1..])
  }

  function EscapeAll(segments: seq<Path>): (escaped: seq<Path>)
    ensures |escaped| == |segments|
  {
    seq(|segments|, i requires 0 <= i < |segments| => PathEscape(segments[i]))
  }

  lemma EscapeAllCons(first: Path, rest: seq<Path>)
    ensures EscapeAll([first] + rest) == [PathEscape(first)] + EscapeAll(rest)
  {
  }

  lemma JoinCons(first: Path, rest: seq<Path>)
    requires rest != []
    ensures Join([first] + rest) == first + [SLASH] + Join(rest)
  {
    assert ([first] + rest)[1..] == rest;
  }

  lemma JoinPrepend(prefix: Path, segments: seq<Path>)
    requires segments != []
    ensures Join([prefix + segments[0]] + segments[1..]) == prefix + Join(segments)
  {
    if |segments| == 1 {
      assert [prefix + segments[0]] + segments[1..] == [prefix + segments[0]];
    } else {
      JoinCons(prefix + segments[0], segments[1..]);
    }
  }

  /** Escaping segment by segment is escaping byte by byte. */
  lemma {:induction false} SegmentsEscaped(path: Path)
    ensures Join(EscapeAll(Split(path))) == Escaped(path)
  {
    if path == [] {
      assert EscapeAll([[]]) == [[]];
    } else {
      var rest := Split(path[1..]);
      SegmentsEscaped(path[1..]);
      if path[0] == SLASH {
        EscapeAllCons([], rest);
        JoinCons([], EscapeAll(rest));
      } else {
        EscapeAllCons([path[0]] + rest[0], rest[1..]);
        assert ([path[0]] + rest[0])[1..] == rest[0];
        EscapeAllCons(rest[0], rest[1..]);
        assert [rest[0]] + rest[1..] == rest;
        JoinPrepend(EscapeByte(path[0]), EscapeAll(rest));
      }
    }
  }

  /** Undoes Escaped on its results. */
  function Unescaped(s: Path): (r: Path) {
    if s == [] then []
    else if s[0] == PERCENT && |s| >= 3 && FromHex(s[1]).Some? && FromHex(s[2]).Some?
    then [(FromHex(s[1]).value * 16 + FromHex(s[2]).value) as byte] + Unescaped(s[3..])
    else [s[0]] + Unescaped(s[1..])
  }

  lemma {:induction false} UnescapeUndoes(path: Path)
    ensures Unescaped(Escaped(path)) == path
  {
    if path != [] {
      UnescapeUndoes(path[1..]);
      var tail := Escaped(path[1..]);
      if path[0] == SLASH {
        assert ([SLASH] + tail)[1..] == tail;
      } else {
        var e := EscapeByte(path[0]);
        assert (e + tail)[|e|..] == tail;
      }
    }
  }

  /** Two paths with the same escaped form are the same path. */
  lemma EscapeIsInjective(p: Path, q: Path)
    requires Escaped(p) == Escaped(q)
    ensures p == q
  {
    UnescapeUndoes(p);
    UnescapeUndoes(q);
  }

  /** ResourcePathEscape: splits the path, escapes the segments in place, joins them again. */
  method ResourcePathEscape(path: Path) returns (escaped: Path)
    ensures escaped == Escaped(path)
  {
    hide Split, Escaped, PathEscape, Join;
    var segments := Split(path);
    ghost var before := segments;
    for i := 0 to |segments|
      invariant |segments| == |before|
      invariant segments == EscapeAll(before)[..i] + before[i..]
    {
      segments := segments[i := PathEscape(segments[i])];
    }
    assert segments == EscapeAll(before);
    SegmentsEscaped(path);
    escaped := Join(segments);
  }

  /** url.QueryUnescape; None is an error, which the callers turn into the empty string. */
  function QueryUnescape(s: Path): (r: Option<Path>) {
    if s == [] then Some([])
    else if s[0] == PERCENT then
      if |s| < 3 || FromHex(s[1]).None? || FromHex(s[2]).None? then None
      else
        var rest := QueryUnescape(s[3..]);
        if rest.None? then None else Some([(FromHex(s[1]).value * 16 + FromHex(s[2]).value) as byte] + rest.value)
    else
      var rest := QueryUnescape(s[1..]);
      if rest.None? then None else Some([if s[0] == PLUS then SPACE else s[0]] + rest.value)
  }

  lemma {:induction false} UnescapeShrinks(s: Path)
    ensures QueryUnescape(s).Some? ==> |QueryUnescape(s).value| <= |s|
    ensures QueryUnescape(s).Some? && PERCENT in s ==> |QueryUnescape(s).value| < |s|
  {
    if s != [] {
      if s[0] == PERCENT {
        if |s| >= 3 { UnescapeShrinks(s[3..]); }
      } else {
        UnescapeShrinks(s[1..]);
        assert s == [s[0]] + s[1..];
      }
    }
  }

  /** Unescaping leaves a path unchanged exactly when it holds neither % nor +. */
  lemma {:induction false} QueryUnescapeKeeps(s: Path)
    ensures QueryUnescape(s) == Some(s) <==> PERCENT !in s && PLUS !in s
  {
    if s != [] {
      UnescapeShrinks(s);
      if s[0] != PERCENT {
        QueryUnescapeKeeps(s[1..]);
        assert s == [s[0]] + s[1..];
      }
    }
  }

  /** Without % nothing is left to unescape after one pass. */
  lemma {:induction false} PlusesGo(s: Path)
    requires PERCENT !in s
    ensures QueryUnescape(s).Some? && PERCENT !in QueryUnescape(s).value && PLUS !in QueryUnescape(s).value
  {
    if s != [] {
      PlusesGo(s[1..]);
    }
  }

  // ----- the escaping, spelled out -----

  const HEX := "0123456789ABCDEF"

  predicate StaysAsItIs(c: char) {
    'A' <= c <= 'Z' || 'a' <= c <= 'z' || '0' <= c <= '9' || c in {'-', '_', '.', '~', '$', '&', '+', ':', '=', '@'}
  }

  /** Letters, digits and ten signs stay as they are; any other byte becomes % and two upper-case digits. */
  lemma ByteIsEscaped(b: byte)
    ensures
      EscapeByte(b) == if StaysAsItIs(b as int as char) then [b]
                       else [37, HEX[b as int / 16] as int as byte, HEX[b as int % 16] as int as byte]
  {
    var n := b as int;
    DigitIsListed(n / 16);
    DigitIsListed(n % 16);
    hide HEX;
  }

  lemma DigitIsListed(n: int)
    requires 0 <= n < 16
    ensures HEX[n] as int < 256 && HexDigit(n) == HEX[n] as int as byte
  {
  }

  /** Byte by byte: a slash stays, every other byte is escaped by itself. */
  lemma PathIsEscaped(b: byte, rest: Path)
    ensures Escaped([]) == []
    ensures Escaped([b] + rest) == (if b == 47 then [47] else EscapeByte(b)) + Escaped(rest)
  {
    assert ([b] + rest)[1..] == rest;
  }

  /** Unescaping, byte by byte: a plus sign is a blank, % takes two digits and fails without them, anything else stays. */
  lemma HrefIsUnescaped(b: byte, rest: Path)
    ensures QueryUnescape([]) == Some([])
    ensures b != 37 ==>
              QueryUnescape([b] + rest) == if QueryUnescape(rest).None? then None else Some([if b == 43 then 32 else b] + QueryUnescape(rest).value)
    ensures b == 37 && (|rest| < 2 || FromHex(rest[0]).None? || FromHex(rest[1]).None?) ==> QueryUnescape([b] + rest) == None
    ensures b == 37 && |rest| >= 2 && FromHex(rest[0]).Some? && FromHex(rest[1]).Some? ==>
              QueryUnescape([b] + rest) ==
              if QueryUnescape(rest[2..]).None? then None
              else Some([(FromHex(rest[0]).value * 16 + FromHex(rest[1]).value) as byte] + QueryUnescape(rest[2..]).value)
  {
    var s := [b] + rest;
    assert s[1..] == rest;
    if |rest| >= 2 {
      assert s[3..] == rest[2..] && s[1] == rest[0] && s[2] == rest[1];
    }
  }

  /** The digits of both cases are read, and nothing else. */
  lemma DigitsAreRead(b: byte, n: int)
    ensures FromHex(b) == Some(n) <==>
            0 <= n < 16 && (b as int as char == "0123456789ABCDEF"[n] || b as int as char == "0123456789abcdef"[n])
  {
  }

  lemma EscapedByteIsUnescaped(b: byte, rest: Path)
    requires b != PLUS && QueryUnescape(rest).Some?
    ensures QueryUnescape((if b == SLASH then [SLASH] else EscapeByte(b)) + rest) == Some([b] + QueryUnescape(rest).value)
  {
    if b == SLASH || Safe(b) {
      HrefIsUnescaped(b, rest);
    } else {
      var hi, lo := HexDigit(b as int / 16), HexDigit(b as int % 16);
      assert EscapeByte(b) + rest == [PERCENT] + ([hi, lo] + rest);
      assert ([hi, lo] + rest)[2..] == rest;
      HrefIsUnescaped(PERCENT, [hi, lo] + rest);
      assert FromHex(hi) == Some(b as int / 16) && FromHex(lo) == Some(b as int % 16);
    }
    hide QueryUnescape;
  }

  /** Unescaping a query undoes the escaping of every path without a plus sign. */
  lemma {:induction false} QueryUnescapeUndoes(path: Path)
    requires PLUS !in path
    ensures QueryUnescape(Escaped(path)) == Some(path)
  {
    if path != [] {
      hide QueryUnescape, EscapeByte;
      QueryUnescapeUndoes(path[1..]);
      assert path == [path[0]] + path[1..];
      EscapedByteIsUnescaped(path[0], Escaped(path[1..]));
    }
  }
}
