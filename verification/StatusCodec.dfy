/** status/status.go: a license status as a number with one bit set. */
module StatusCodec {
  import opened Options
  import opened Bytes

  const NAMES := ["ready", "active", "revoked", "returned", "cancelled", "expired"]

  // ----- binary numerals, the most significant digit first -----

  function Binary(n: nat): (s: string)
    ensures s != []
  {
    if n < 2 then [Digit(n)] else Binary(n / 2) + [Digit(n % 2)]
  }

  function Digit(b: nat): (r: char) { if b == 0 then '0' else '1' }

  /** strconv.FormatInt(n, 2) */
  function FormatInt(n: int): (r: string) { if n < 0 then "-" + Binary(-n) else Binary(n) }

  /** strconv.ParseInt(s, 2, 64) of a string of digits */
  function Value(s: string): (r: nat) {
    if s == [] then 0 else 2 * Value(s[..|s| - 1]) + if s[|s| - 1] == '1' then 1 else 0
  }

  function Reversed(s: string): (r: string)
    ensures |r| == |s| && forall i :: 0 <= i < |s| ==> r[i] == s[|s| - 1 - i]
  {
    seq(|s|, i requires 0 <= i < |s| => s[|s| - 1 - i])
  }

  lemma ReversedTwice(s: string)
    ensures Reversed(Reversed(s)) == s
  {
    forall i | 0 <= i < |s| ensures Reversed(Reversed(s))[i] == s[i] {
    }
  }

  /** strings.Count(s, "1") */
  function Ones(s: string): (r: nat) {
    if s == [] then 0 else Ones(s[..|s| - 1]) + if s[|s| - 1] == '1' then 1 else 0
  }

  /** The numeral of 2^k reversed: k zeros and a one. */
  function Power(k: nat): (s: string)
    ensures |s| == k + 1
  {
    seq(k + 1, i requires 0 <= i <= k => if i == k then '1' else '0')
  }

  // ----- what the two functions mean -----

  /** GetStatus: the position of the only one in the reversed numeral, when it is the number of a status. */
  function Decoded(n: int): (r: Option<nat>) {
    var s := Reversed(FormatInt(n));
    if Ones(s) != 1 then None else var k := IndexOfOne(s); if |NAMES| >= k + 1 then Some(k) else None
  }

  /** strings.Index(s, "1"), or the length if there is none. */
  function IndexOfOne(s: string): (k: nat)
    ensures k <= |s| && (k < |s| ==> s[k] == '1') && forall i :: 0 <= i < k ==> s[i] != '1'
  {
    if s == [] || s[0] == '1' then 0 else 1 + IndexOfOne(s[1..])
  }

  lemma {:induction false} OnesReversed(s: string)
    ensures Ones(Reversed(s)) == Ones(s)
  {
    if s != [] {
      var init := s[..|s| - 1];
      OnesReversed(init);
      assert Reversed(s) == [s[|s| - 1]] + Reversed(init);
      OnesInFront(s[|s| - 1], Reversed(init));
    }
  }

  lemma {:induction false} OnesInFront(c: char, s: string)
    ensures Ones([c] + s) == (if c == '1' then 1 else 0) + Ones(s)
  {
    if s == [] {
      assert [c] + s == [c] && [c][..0] == [];
    } else {
      OnesInFront(c, s[..|s| - 1]);
      assert ([c] + s)[..|s|] == [c] + s[..|s| - 1];
    }
  }

  lemma {:induction false} BinaryHasAOne(n: nat)
    requires n > 0
    ensures Binary(n)[0] == '1' && Ones(Binary(n)) >= 1
  {
    if n == 1 {
      assert "1"[..0] == "" && Ones("1") == 1;
    } else {
      BinaryHasAOne(n / 2);
      assert Binary(n)[..|Binary(n)| - 1] == Binary(n / 2);
    }
  }

  /** A numeral has a single one exactly when it is a power of two: the one in front, and as many zeros as the exponent. */
  lemma {:induction false} SingleOne(n: nat)
    requires n > 0
    ensures Ones(Binary(n)) == 1 <==> n == Pow2(|Binary(n)| - 1)
  {
    if n == 1 {
      assert "1"[..0] == "" && Ones("1") == 1;
    } else {
      SingleOne(n / 2);
      BinaryHasAOne(n / 2);
      assert Binary(n)[..|Binary(n)| - 1] == Binary(n / 2);
      PowerIsEven(|Binary(n)| - 1);
    }
  }

  lemma PowerIsEven(k: nat)
    requires k > 0
    ensures Pow2(k) % 2 == 0 && Pow2(k) / 2 == Pow2(k - 1)
  {
  }

  lemma {:induction false} OneInFrontIsOnly(s: string, i: nat)
    requires s != [] && s[0] == '1' && 0 < i < |s| && Ones(s) == 1
    ensures s[i] != '1'
  {
    assert s == [s[0]] + s[1..];
    OnesInFront(s[0], s[1..]);
    NoOnes(s[1..], i - 1);
  }

  lemma {:induction false} NoOnes(s: string, i: nat)
    requires i < |s| && Ones(s) == 0
    ensures s[i] != '1'
  {
    if i < |s| - 1 {
      NoOnes(s[..|s| - 1], i);
    }
  }

  lemma {:induction false} BinaryOfPower(k: nat)
    ensures |Binary(Pow2(k))| == k + 1
  {
    if k > 0 {
      BinaryOfPower(k - 1);
      PowerIsEven(k);
    }
  }

  /** GetStatus decodes a number exactly when its absolute value is a power of two below 2^6, and answers the exponent. */
  lemma DecodesExactly(n: int, k: nat)
    ensures Decoded(n) == Some(k) <==> k < |NAMES| && (n == Pow2(k) || -n == Pow2(k))
  {
    var a: nat := if n < 0 then -n else n;
    var s := FormatInt(n);
    OnesReversed(s);
    if a == 0 {
      assert Binary(0) == "0" && "0"[..0] == "" && Ones("0") == 0;
      assert Decoded(n) == None;
    } else {
      if n < 0 {
        OnesInFront('-', Binary(a));
      }
      assert Ones(s) == Ones(Binary(a));
      SingleOne(a);
      BinaryHasAOne(a);
      var e := |Binary(a)| - 1;
      BinaryOfPower(k);
      if Ones(s) == 1 {
        OnlyAtTheEnd(a, s);
      }
    }
  }

  lemma FirstOne(r: string, k: nat)
    requires k < |r| && r[k] == '1' && forall i :: 0 <= i < k ==> r[i] != '1'
    ensures IndexOfOne(r) == k
  {
  }

  lemma OnlyAtTheEnd(a: nat, s: string)
    requires a > 0 && Ones(Binary(a)) == 1 && (s == Binary(a) || s == "-" + Binary(a))
    ensures IndexOfOne(Reversed(s)) == |Binary(a)| - 1
  {
    BinaryHasAOne(a);
    OnlyInFront(Binary(a), s);
  }

  /** A digit string whose single one is in front, with or without a sign. */
  lemma OnlyInFront(b: string, s: string)
    requires b != [] && b[0] == '1' && Ones(b) == 1 && (s == b || s == "-" + b)
    ensures IndexOfOne(Reversed(s)) == |b| - 1
  {
    var r := Reversed(s);
    hide IndexOfOne, Ones;
    assert r[|b| - 1] == s[|s| - |b|] == b[0];
    forall i | 0 <= i < |b| - 1 ensures r[i] != '1' {
      assert r[i] == s[|s| - 1 - i] == b[|b| - 1 - i];
      OneInFrontIsOnly(b, |b| - 1 - i);
    }
    FirstOne(r, |b| - 1);
  }

  /** SetStatus: one digit for each status, the last status first. */
  function Encoded(status: string): (r: nat) {
    Value(Reversed(seq(|NAMES|, i requires 0 <= i < |NAMES| => if NAMES[i] == status then '1' else '0')))
  }

  lemma NamesDiffer(i: nat, j: nat)
    requires i < |NAMES| && j < |NAMES| && i != j
    ensures NAMES[i] != NAMES[j]
  {
    assert |NAMES[0]| == 5 && |NAMES[1]| == 6 && |NAMES[2]| == 7 && |NAMES[3]| == 8 && |NAMES[4]| == 9 && |NAMES[5]| == 7;
    assert NAMES[2][2] == 'v' && NAMES[5][2] == 'p';
  }

  lemma {:induction false} ValueOfPower(k: nat, zeros: nat)
    ensures Value(seq(zeros, i => '0') + Reversed(Power(k))) == Pow2(k)
    decreases zeros + k
  {
    var s := seq(zeros, i => '0') + Reversed(Power(k));
    if k > 0 {
      ValueOfPower(k - 1, zeros);
      assert s[..|s| - 1] == seq(zeros, i => '0') + Reversed(Power(k - 1));
    } else {
      assert s[..|s| - 1] == seq(zeros, i => '0');
      ValueOfZeros(zeros);
    }
  }

  lemma {:induction false} ValueOfZeros(zeros: nat)
    ensures Value(seq(zeros, i => '0')) == 0
  {
    if zeros > 0 {
      ValueOfZeros(zeros - 1);
      assert seq(zeros, i => '0')[..zeros - 1] == seq(zeros - 1, i => '0');
    }
  }

  lemma EncodesAsPower(k: nat)
    requires k < |NAMES|
    ensures Encoded(NAMES[k]) == Pow2(k)
  {
    var reg := seq(|NAMES|, i requires 0 <= i < |NAMES| => if NAMES[i] == NAMES[k] then '1' else '0');
    forall i | 0 <= i < |NAMES| ensures Reversed(reg)[i] == (seq(|NAMES| - 1 - k, i => '0') + Reversed(Power(k)))[i] {
      if |NAMES| - 1 - i != k {
        NamesDiffer(|NAMES| - 1 - i, k);
      }
    }
    assert Reversed(reg) == seq(|NAMES| - 1 - k, i => '0') + Reversed(Power(k));
    ValueOfPower(k, |NAMES| - 1 - k);
  }

  /** Setting what was got gives the number back, for every number that is not negative. */
  lemma SetUndoesGet(n: nat)
    requires Decoded(n).Some?
    ensures Encoded(NAMES[Decoded(n).value]) == n
  {
    var k := Decoded(n).value;
    DecodesExactly(n, k);
    EncodesAsPower(k);
  }

  /** Getting what was set gives the status back. */
  lemma GetUndoesSet(k: nat)
    requires k < |NAMES|
    ensures Decoded(Encoded(NAMES[k])) == Some(k)
  {
    EncodesAsPower(k);
    DecodesExactly(Pow2(k), k);
  }

  // ----- the Go code -----

  /** reverse, in place. */
  method Reverse(s: string) returns (result: string)
    ensures result == Reversed(s)
  {
    var r := new char[|s|](i requires 0 <= i < |s| => s[i]);
    var i, j := 0, |s| - 1;
    while i < |s| / 2
      invariant 0 <= i <= |s| / 2 && j == |s| - 1 - i
      invariant forall k :: 0 <= k < i || |s| - i <= k < |s| ==> r[k] == s[|s| - 1 - k]
      invariant forall k :: i <= k < |s| - i ==> r[k] == s[k]
    {
      r[i], r[j] := r[j], r[i];
      i, j := i + 1, j - 1;
    }
    result := r[..];
  }

  /** GetStatus writes through the pointer only when it decodes; otherwise the status stays as it was. */
  method GetStatus(statusDB: int, status: array<string>)
    requires status.Length == 1
    modifies status
    ensures status[0] == if Decoded(statusDB).Some? then NAMES[Decoded(statusDB).value] else old(status[0])
  {
    var resultStr := Reverse(FormatInt(statusDB));
    if Ones(resultStr) == 1 {
      var index := IndexOfOne(resultStr);
      if |NAMES| >= index + 1 {
        status[0] := NAMES[index];
      }
    }
  }

  /** SetStatus; `order` is the order, any order, in which the map of the statuses is walked. */
  method SetStatus(status: string, order: seq<nat>) returns (statusDB: nat)
    requires forall k: nat :: k < |NAMES| <==> k in order
    ensures statusDB == Encoded(status)
  {
    var reg := new char[|NAMES|](i => ' ');
    for i := 0 to |order|
      invariant forall k :: 0 <= k < |NAMES| && k in order[..i] ==> reg[k] == if NAMES[k] == status then '1' else '0'
    {
      var key := order[i];
      assert key in order;
      reg[key] := if NAMES[key] == status then '1' else '0';
      assert order[..i + 1] == order[..i] + [key];
    }
    assert order[..|order|] == order;
    var resultStr := Reverse(reg[..]);
    assert reg[..] == seq(|NAMES|, i requires 0 <= i < |NAMES| => if NAMES[i] == status then '1' else '0');
    statusDB := Value(resultStr);
  }

  /** The numbers of the six statuses; any other text is number zero, which is no status. */
  lemma NumbersOfStatuses()
    ensures Encoded("ready") == 1 && Encoded("active") == 2 && Encoded("revoked") == 4
    ensures Encoded("returned") == 8 && Encoded("cancelled") == 16 && Encoded("expired") == 32
    ensures Decoded(0) == None
  {
    EncodesAsPower(0);
    EncodesAsPower(1);
    EncodesAsPower(2);
    EncodesAsPower(3);
    EncodesAsPower(4);
    EncodesAsPower(5);
    SmallPowers();
    if Decoded(0).Some? {
      DecodesExactly(0, Decoded(0).value);
    }
  }

  lemma SmallPowers()
    ensures Pow2(0) == 1 && Pow2(1) == 2 && Pow2(2) == 4 && Pow2(3) == 8 && Pow2(4) == 16 && Pow2(5) == 32
  {
  }

  /** Any other text is set as zero. */
  lemma OtherTextsAreZero(status: string)
    requires status !in NAMES
    ensures Encoded(status) == 0
  {
    var reg := seq(|NAMES|, i requires 0 <= i < |NAMES| => if NAMES[i] == status then '1' else '0');
    forall i | 0 <= i < |NAMES| ensures Reversed(reg)[i] == seq(|NAMES|, i => '0')[i] {
      assert NAMES[|NAMES| - 1 - i] in NAMES;
    }
    assert Reversed(reg) == seq(|NAMES|, i => '0');
    ValueOfZeros(|NAMES|);
  }
}
