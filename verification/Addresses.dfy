// Textual addresses: dotted quads in full, and the test for a beginning of one.

module Addresses {
  import opened Prelude

  /** A netip.Addr: the zero value, four octets, or an IPv6 address of which only the
      identity matters. */
  datatype Addr = NoAddr | V4(octets: seq<nat>) | V6(code: nat)

  /** Reading IPv6 addresses is library code; it enters every statement as a parameter. */
  type V6Parser = string -> Option<nat>

  /** strings.Split(s, "."). */
  function Split(s: string): (parts: seq<string>)
    ensures |parts| > 0
  {
    if s == "" then [""]
    else
      var rest := Split(s[1..]);
      if s[0] == '.' then [""] + rest else [[s[0]] + rest[0]] + rest[1..]
  }

  predicate IsDigit(c: char) {
    '0' <= c <= '9'
  }

  function Digit(c: char): (d: nat)
    requires IsDigit(c)
    ensures d <= 9
  {
    c as int - '0' as int
  }

  function Decimal(s: string): nat
    requires forall c :: c in s ==> IsDigit(c)
  {
    if s == "" then 0 else 10 * Decimal(s[..|s| - 1]) + Digit(s[|s| - 1])
  }

  /** A decimal number of 0..255 without leading zeros. */
  predicate IsOctet(s: string) {
    && |s| > 0
    && (forall c :: c in s ==> IsDigit(c))
    && (|s| > 1 ==> s[0] != '0')
    && Decimal(s) <= 255
  }

  predicate IsIPv4(s: string) {
    && |Split(s)| == 4
    && (forall i :: 0 <= i < 4 ==> IsOctet(Split(s)[i]))
  }

  function ParseIPv4(s: string): (r: Option<Addr>)
    ensures r.Some? <==> IsIPv4(s)
  {
    if !IsIPv4(s) then None
    else
      var p := Split(s);
      Some(V4([Decimal(p[0]), Decimal(p[1]), Decimal(p[2]), Decimal(p[3])]))
  }

  // ---------------------------------------------------------------- one text per address

  lemma {:induction false} SplitUnique(s: string, t: string)
    requires Split(s) == Split(t)
    ensures s == t
  {
    if s == "" || t == "" {
      SplitOfNothing(s);
      SplitOfNothing(t);
    } else {
      assert Split(s)[0] == Split(t)[0];
      if s[0] != '.' && t[0] != '.' {
        assert Split(s[1..])[0] == Split(s)[0][1..] && Split(t[1..])[0] == Split(t)[0][1..];
        assert Split(s[1..])[1..] == Split(s)[1..] && Split(t[1..])[1..] == Split(t)[1..];
        assert Split(s[1..]) == [Split(s[1..])[0]] + Split(s[1..])[1..];
        assert Split(t[1..]) == [Split(t[1..])[0]] + Split(t[1..])[1..];
        assert s[0] == Split(s)[0][0] && t[0] == Split(t)[0][0];
      } else {
        assert Split(s[1..]) == Split(s)[1..] && Split(t[1..]) == Split(t)[1..];
      }
      SplitUnique(s[1..], t[1..]);
      assert s == [s[0]] + s[1..] && t == [t[0]] + t[1..];
    }
  }

  lemma SplitOfNothing(s: string)
    ensures Split(s) == [""] <==> s == ""
  {
  }

  predicate IsNumber(s: string) {
    s != "" && (forall c :: c in s ==> IsDigit(c)) && (|s| > 1 ==> s[0] != '0')
  }

  lemma {:induction false} NumberPositive(s: string)
    requires s != "" && (forall c :: c in s ==> IsDigit(c)) && s[0] != '0'
    ensures Decimal(s) > 0
  {
    if |s| > 1 {
      NumberPositive(s[..|s| - 1]);
    }
  }

  /** Without leading zeros a number is written in one way. */
  lemma {:induction false} NumberUnique(s: string, t: string)
    requires IsNumber(s) && IsNumber(t) && Decimal(s) == Decimal(t)
    ensures s == t
    decreases |s|
  {
    var a, b := s[..|s| - 1], t[..|t| - 1];
    assert Digit(s[|s| - 1]) == Digit(t[|t| - 1]) && Decimal(a) == Decimal(b);
    if a != "" {
      NumberPositive(a);
    }
    if b != "" {
      NumberPositive(b);
    }
    if a != "" && b != "" {
      NumberUnique(a, b);
    }
    assert s == a + [s[|s| - 1]] && t == b + [t[|t| - 1]];
  }

  /** An address is parsed from one text only. */
  lemma OneText(s: string, t: string)
    requires ParseIPv4(s).Some? && ParseIPv4(s) == ParseIPv4(t)
    ensures s == t
  {
    var p, q := Split(s), Split(t);
    assert ParseIPv4(s).value.octets == ParseIPv4(t).value.octets;
    forall i | 0 <= i < 4 ensures p[i] == q[i] {
      assert IsOctet(p[i]) && IsOctet(q[i]);
      assert Decimal(p[i]) == ParseIPv4(s).value.octets[i] && Decimal(q[i]) == ParseIPv4(t).value.octets[i];
      NumberUnique(p[i], q[i]);
    }
    assert p == q;
    SplitUnique(s, t);
  }

  // ---------------------------------------------------------------- the text of an address

  /** n in decimal notation. */
  function Print(n: nat): (s: string)
    ensures s != ""
  {
    (if n < 10 then "" else Print(n / 10)) + ["0123456789"[n % 10]]
  }

  /** Four numbers in dotted notation. */
  function Dotted(o: seq<nat>): string
    requires |o| == 4
  {
    Print(o[0]) + "." + Print(o[1]) + "." + Print(o[2]) + "." + Print(o[3])
  }

  lemma {:induction false} PrintIsNumber(n: nat)
    ensures IsNumber(Print(n)) && Decimal(Print(n)) == n
    ensures n > 0 ==> Print(n)[0] != '0'
  {
    var init, last := if n < 10 then "" else Print(n / 10), "0123456789"[n % 10];
    assert Print(n) == init + [last];
    assert Print(n)[..|Print(n)| - 1] == init;
    assert IsDigit(last) && Digit(last) == n % 10;
    if n >= 10 {
      PrintIsNumber(n / 10);
    }
  }

  lemma {:induction false} SplitWord(w: string)
    requires '.' !in w
    ensures Split(w) == [w]
  {
    if w != "" {
      SplitWord(w[1..]);
      assert w == [w[0]] + w[1..];
    }
  }

  lemma SplitDot()
    ensures Split(".") == ["", ""]
  {
    assert "."[1..] == "";
  }

  lemma JoinDot(x: seq<string>, y: seq<string>)
    requires x != [] && y != []
    ensures Join(x, ["", ""]) == x + [""] && Join(x + [""], y) == x + y
  {
    var k := |x| - 1;
    assert x[k] + "" == x[k] && x == x[..k] + [x[k]];
    assert "" + y[0] == y[0] && y == [y[0]] + y[1..];
  }

  /** A dot ends one part and begins the next. */
  lemma SplitAtDot(a: string, b: string)
    ensures Split(a + "." + b) == Split(a) + Split(b)
  {
    hide Split;
    SplitDot();
    SplitConcat(a + ".", b);
    SplitConcat(a, ".");
    JoinDot(Split(a), Split(b));
  }

  lemma DottedParts(o: seq<nat>)
    requires |o| == 4
    ensures Split(Dotted(o)) == [Print(o[0]), Print(o[1]), Print(o[2]), Print(o[3])]
  {
    hide Split, Print;
    forall i | 0 <= i < 4 ensures Split(Print(o[i])) == [Print(o[i])] {
      PrintIsNumber(o[i]);
      assert '.' !in Print(o[i]);
      SplitWord(Print(o[i]));
    }
    var two := Print(o[0]) + "." + Print(o[1]);
    SplitAtDot(Print(o[0]), Print(o[1]));
    SplitAtDot(two, Print(o[2]));
    SplitAtDot(two + "." + Print(o[2]), Print(o[3]));
  }

  lemma DottedIsRead(o: seq<nat>)
    requires |o| == 4 && forall i :: 0 <= i < 4 ==> o[i] <= 255
    ensures ParseIPv4(Dotted(o)) == Some(V4(o))
  {
    hide Split, Decimal, Print, Dotted;
    DottedParts(o);
    var p := Split(Dotted(o));
    forall i | 0 <= i < 4 ensures IsOctet(p[i]) && Decimal(p[i]) == o[i] {
      PrintIsNumber(o[i]);
    }
    assert [Decimal(p[0]), Decimal(p[1]), Decimal(p[2]), Decimal(p[3])] == o;
  }

  /** The texts that are read as the address of octets o are exactly its dotted text. */
  lemma DottedIff(s: string, o: seq<nat>)
    ensures ParseIPv4(s) == Some(V4(o)) <==> |o| == 4 && (forall i :: 0 <= i < 4 ==> o[i] <= 255) && s == Dotted(o)
  {
    hide Split, Decimal, Print;
    if |o| == 4 && forall i :: 0 <= i < 4 ==> o[i] <= 255 {
      DottedIsRead(o);
      if ParseIPv4(s) == Some(V4(o)) {
        OneText(s, Dotted(o));
      }
    } else if ParseIPv4(s).Some? {
      var p := Split(s);
      assert forall i :: 0 <= i < 4 ==> ParseIPv4(s).value.octets[i] == Decimal(p[i]) && IsOctet(p[i]);
    }
  }

  // ---------------------------------------------------------------- beginnings of quads

  /** The tests isPrefixOfIPv4Address makes on one octet, which may be empty. */
  predicate OctetSoFar(s: string) {
    && |s| <= 3
    && (forall c :: c in s ==> IsDigit(c))
    && (|s| > 1 ==> s[0] != '0')
    && (|s| == 3 ==> s[0] <= '2')
    && (|s| == 3 && s[0] == '2' ==> s[1] <= '5')
    && (|s| == 3 && s[0] == '2' && s[1] == '5' ==> s[2] <= '5')
  }

  predicate QuadSoFar(s: string) {
    var parts := Split(s);
    && |parts| <= 4
    && (forall i :: 0 <= i < |parts| ==> OctetSoFar(parts[i]) && (parts[i] == "" ==> i == |parts| - 1))
  }

  method IsPrefixOfIPv4Address(s: string) returns (r: bool)
    ensures r <==> exists ext :: IsIPv4(s + ext)
  {
    QuadSoFarIff(s);
    if |s| == 0 {
      return true;
    }
    var octets := Split(s);
    if |octets| > 4 {
      return false;
    }
    for i := 0 to |octets|
      invariant forall j :: 0 <= j < i ==> OctetSoFar(octets[j]) && (octets[j] == "" ==> j == |octets| - 1)
    {
      var octet := octets[i];
      if |octet| == 0 && i != |octets| - 1 {
        return false;
      }
      if |octet| > 3 {
        return false;
      }
      for k := 0 to |octet|
        invariant forall j :: 0 <= j < k ==> IsDigit(octet[j])
      {
        if octet[k] < '0' || octet[k] > '9' {
          assert octet[k] in octets[i];
          return false;
        }
      }
      if |octet| > 1 && octet[0] == '0' {
        return false;
      }
      if |octet| == 3 && octet[0] > '2' {
        return false;
      }
      if |octet| == 3 && octet[0] == '2' && octet[1] > '5' {
        return false;
      }
      if |octet| == 3 && octet[0] == '2' && octet[1] == '5' && octet[2] > '5' {
        return false;
      }
    }
    r := true;
  }

  lemma OctetIff(s: string)
    ensures IsOctet(s) <==> OctetSoFar(s) && s != ""
  {
    if |s| > 0 && (forall c :: c in s ==> IsDigit(c)) && (|s| > 1 ==> s[0] != '0') {
      if |s| <= 3 {
        DecimalShort(s);
      } else {
        DecimalLarge(s);
      }
    }
  }

  lemma DecimalShort(s: string)
    requires 1 <= |s| <= 3 && forall c :: c in s ==> IsDigit(c)
    ensures |s| == 1 ==> Decimal(s) == Digit(s[0])
    ensures |s| == 2 ==> Decimal(s) == 10 * Digit(s[0]) + Digit(s[1])
    ensures |s| == 3 ==> Decimal(s) == 100 * Digit(s[0]) + 10 * Digit(s[1]) + Digit(s[2])
  {
    var init := s[..|s| - 1];
    if |s| == 1 {
      assert init == "";
    } else {
      DecimalShort(init);
    }
  }

  /** A number of four digits or more that does not start with a zero is at least 1000. */
  lemma {:induction false} DecimalLarge(s: string)
    requires |s| >= 4 && s[0] != '0' && forall c :: c in s ==> IsDigit(c)
    ensures Decimal(s) >= 1000
  {
    assert s[0] in s;
    var init := s[..|s| - 1];
    if |s| > 4 {
      DecimalLarge(init);
    } else {
      DecimalShort(init);
    }
  }

  function Join(x: seq<string>, y: seq<string>): seq<string>
    requires x != [] && y != []
  {
    x[..|x| - 1] + [x[|x| - 1] + y[0]] + y[1..]
  }

  lemma JoinPrepend(c: char, x: seq<string>, y: seq<string>)
    requires x != [] && y != []
    ensures [""] + Join(x, y) == Join([""] + x, y)
    ensures [[c] + Join(x, y)[0]] + Join(x, y)[1..] == Join([[c] + x[0]] + x[1..], y)
  {
    var x' := [[c] + x[0]] + x[1..];
    assert ([""] + x)[..|x|] == [""] + x[..|x| - 1];
    if |x| == 1 {
      assert Join(x, y)[1..] == y[1..];
      assert [c] + (x[0] + y[0]) == ([c] + x[0]) + y[0];
    } else {
      assert x'[..|x| - 1] == [[c] + x[0]] + x[1..|x| - 1];
      assert Join(x, y)[1..] == x[1..|x| - 1] + [x[|x| - 1] + y[0]] + y[1..];
    }
  }

  /** Splitting a concatenation joins the last part of one with the first of the other. */
  lemma {:induction false} SplitConcat(a: string, b: string)
    ensures Split(a + b) == Join(Split(a), Split(b))
  {
    if a == "" {
      assert a + b == b;
      assert Split(a) == [""];
      assert "" + Split(b)[0] == Split(b)[0];
    } else {
      SplitConcat(a[1..], b);
      assert (a + b)[1..] == a[1..] + b && (a + b)[0] == a[0];
      hide Join;
      JoinPrepend(a[0], Split(a[1..]), Split(b));
    }
  }

  lemma SplitChar(c: char)
    requires c != '.'
    ensures Split([c]) == [[c]]
  {
    assert [c][1..] == "";
    assert Split("") == [""];
    assert [c] + "" == [c];
  }

  /** The tests of isPrefixOfIPv4Address hold of exactly the beginnings of dotted quads. */
  lemma QuadSoFarIff(s: string)
    ensures QuadSoFar(s) <==> exists ext :: IsIPv4(s + ext)
  {
    if QuadSoFar(s) {
      var ext := Completion(s);
    }
    forall ext | IsIPv4(s + ext) ensures QuadSoFar(s) {
      PrefixOfQuad(s, ext);
    }
  }

  lemma PrefixOfQuad(s: string, ext: string)
    requires IsIPv4(s + ext)
    ensures QuadSoFar(s)
  {
    SplitConcat(s, ext);
    var parts, all, k := Split(s), Split(s + ext), |Split(s)| - 1;
    forall i | 0 <= i < |parts| ensures OctetSoFar(parts[i]) && (parts[i] == "" ==> i == |parts| - 1) {
      OctetIff(all[i]);
      if i < k {
        assert all[i] == parts[i];
      } else {
        assert all[k] == parts[k] + Split(ext)[0];
        OctetPrefix(parts[k], Split(ext)[0]);
      }
    }
  }

  lemma OctetPrefix(a: string, b: string)
    requires OctetSoFar(a + b)
    ensures OctetSoFar(a)
  {
    assert forall i :: 0 <= i < |a| ==> (a + b)[i] == a[i];
    forall c | c in a ensures IsDigit(c) {
      assert c in a + b;
    }
    if |a| == 3 {
      assert a + b == a;
    }
  }

  /** Appending "0" to a missing last octet, or nothing to a present one. */
  lemma CompleteOctet(s: string)
    requires QuadSoFar(s)
    ensures var k := |Split(s)| - 1;
      var digit := if Split(s)[k] == "" then "0" else "";
      && Split(s + digit) == Split(s)[..k] + [Split(s)[k] + digit]
      && forall i :: 0 <= i <= k ==> IsOctet(Split(s + digit)[i])
  {
    var parts := Split(s);
    var k := |parts| - 1;
    var digit := if parts[k] == "" then "0" else "";
    SplitChar('0');
    SplitConcat(s, digit);
    var all := Split(s + digit);
    assert Split(digit) == [digit];
    forall i | 0 <= i <= k ensures IsOctet(all[i]) {
      OctetIff(all[i]);
      assert i < k ==> all[i] == parts[i];
      assert i == k ==> all[i] == parts[k] + digit;
    }
  }

  /** Appending ".0" adds one octet. */
  lemma AppendZero(s: string)
    ensures Split(s + ".0") == Split(s) + ["0"]
  {
    SplitConcat(s, ".0");
    assert ".0"[1..] == "0";
    SplitChar('0');
    assert Split(".0") == ["", "0"];
    var k := |Split(s)| - 1;
    assert Split(s)[k] + "" == Split(s)[k];
    assert Split(s) == Split(s)[..k] + [Split(s)[k]];
  }

  lemma {:induction false} Completion(s: string) returns (ext: string)
    requires QuadSoFar(s)
    ensures IsIPv4(s + ext)
  {
    CompleteOctet(s);
    var digit := if Split(s)[|Split(s)| - 1] == "" then "0" else "";
    var zeros := AddOctets(s + digit);
    ext := digit + zeros;
    assert s + ext == s + digit + zeros;
  }

  lemma {:induction false} AddOctets(s: string) returns (zeros: string)
    requires |Split(s)| <= 4 && forall i :: 0 <= i < |Split(s)| ==> IsOctet(Split(s)[i])
    ensures IsIPv4(s + zeros)
    decreases 4 - |Split(s)|
  {
    if |Split(s)| == 4 {
      zeros := "";
      assert s + zeros == s;
    } else {
      AppendZero(s);
      OctetIff("0");
      var more := AddOctets(s + ".0");
      zeros := ".0" + more;
      assert s + zeros == s + ".0" + more;
    }
  }
}
