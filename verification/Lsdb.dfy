// Link state advertisements: the Fletcher checksum, the age in the encoded bytes, and the
// order of instances by recency.

module Lsdb {
  import opened Prelude

  newtype byte = x: int | 0 <= x < 256

  type Bytes = seq<byte>

  // ---------------------------------------------------------------- Fletcher sums

  /** c0 and c1 of fletcher16 over the bytes d. */
  function Sum0(d: Bytes): (c: int)
    ensures 0 <= c < 255
  {
    if d == [] then 0 else (Sum0(d[..|d| - 1]) + d[|d| - 1] as int) % 255
  }

  function Sum1(d: Bytes): (c: int)
    ensures 0 <= c < 255
  {
    if d == [] then 0 else (Sum1(d[..|d| - 1]) + Sum0(d)) % 255
  }

  function Flatten(data: seq<Bytes>): Bytes {
    if data == [] then [] else Flatten(data[..|data| - 1]) + data[|data| - 1]
  }

  lemma SumsOfOneMore(before: Bytes, d: Bytes, j: nat)
    requires j < |d|
    ensures Sum0(before + d[..j + 1]) == (Sum0(before + d[..j]) + d[j] as int) % 255
    ensures Sum1(before + d[..j + 1]) == (Sum1(before + d[..j]) + Sum0(before + d[..j + 1])) % 255
  {
    assert (before + d[..j + 1])[..|before| + j] == before + d[..j];
  }

  /** fletcher16: over several slices it is what it is over their concatenation. */
  method Fletcher16(data: seq<Bytes>) returns (r0: int, r1: int)
    ensures r0 == Sum0(Flatten(data)) && r1 == Sum1(Flatten(data))
  {
    var c0, c1 := 0, 0;
    assert Sum0([]) == 0 && Sum1([]) == 0;
    hide Sum0, Sum1;
    for i := 0 to |data|
      invariant c0 == Sum0(Flatten(data[..i])) && c1 == Sum1(Flatten(data[..i]))
    {
      var d := data[i];
      ghost var before := Flatten(data[..i]);
      assert before + d[..0] == before;
      for j := 0 to |d|
        invariant c0 == Sum0(before + d[..j]) && c1 == Sum1(before + d[..j])
      {
        SumsOfOneMore(before, d, j);
        c0 := (c0 + d[j] as int) % 255;
        c1 := (c1 + c0) % 255;
      }
      assert d[..|d|] == d;
      assert data[..i + 1][..i] == data[..i];
    }
    assert data[..|data|] == data;
    return c0, c1;
  }

  /** The plain sums, without reduction: Sum1 weighs each byte by its distance from the end. */
  function Plain0(d: Bytes): int {
    if d == [] then 0 else Plain0(d[..|d| - 1]) + d[|d| - 1] as int
  }

  function Plain1(d: Bytes): int {
    if d == [] then 0 else Plain1(d[..|d| - 1]) + Plain0(d)
  }

  ghost predicate Congruent(a: int, b: int) {
    (a - b) % 255 == 0
  }

  lemma CongruentMod(a: int)
    ensures Congruent(a % 255, a)
  {
  }

  lemma CongruentItself(a: int)
    ensures Congruent(a, a)
  {
  }

  lemma {:induction false} SumsArePlain(d: Bytes)
    ensures Congruent(Sum0(d), Plain0(d)) && Congruent(Sum1(d), Plain1(d))
  {
    hide Congruent;
    if d != [] {
      var init, b := d[..|d| - 1], d[|d| - 1] as int;
      SumsArePlain(init);
      CongruentItself(b);
      SumCongruent(Sum0(init), Plain0(init), b, b);
      SumCongruent(Sum1(init), Plain1(init), Sum0(d), Plain0(d));
    } else {
      CongruentItself(0);
    }
  }

  /** Reducing a sum keeps its class. */
  lemma SumCongruent(a: int, b: int, c: int, d: int)
    requires Congruent(a, b) && Congruent(c, d)
    ensures Congruent((a + c) % 255, b + d)
  {
  }

  /** Changing the byte at k by delta changes the plain sums by delta and by delta times the
      number of bytes from k to the end. */
  lemma {:induction false} ChangeByte(d: Bytes, k: nat, b: byte)
    requires k < |d|
    ensures Plain0(d[k := b]) == Plain0(d) + (b as int - d[k] as int)
    ensures Plain1(d[k := b]) == Plain1(d) + (|d| - k) * (b as int - d[k] as int)
  {
    var n, e := |d| - 1, d[k := b];
    var delta := b as int - d[k] as int;
    if k < n {
      ChangeByte(d[..n], k, b);
      assert e[..n] == d[..n][k := b];
      assert (n + 1 - k) * delta == (n - k) * delta + delta;
    } else {
      assert e[..n] == d[..n];
      assert (|d| - k) * delta == delta;
    }
  }

  // ---------------------------------------------------------------- checksums

  /** fletcher16Checksum: c1 in the high byte, c0 in the low byte. */
  function Checksum(d: Bytes): (c: int)
    ensures 0 <= c < 0x1_0000
  {
    Sum1(d) * 256 + Sum0(d)
  }

  /** The two bytes of a checksum field. */
  function High(c: int): byte
    requires 0 <= c < 0x1_0000
  {
    (c / 256) as byte
  }

  function Low(c: int): byte
    requires 0 <= c < 0x1_0000
  {
    (c % 256) as byte
  }

  function Store(d: Bytes, offset: nat, x: byte, y: byte): (e: Bytes)
    requires offset + 2 <= |d|
    ensures |e| == |d|
  {
    d[offset := x][offset + 1 := y]
  }

  /** The weight of the first checksum byte in Sum1, less one. */
  function Weight(d: Bytes, offset: nat): int {
    |d| - offset - 1
  }

  /** What the bytes x and y at offset do to the sums. */
  lemma StoreSums(d: Bytes, offset: nat, x: byte, y: byte)
    requires offset + 2 <= |d|
    ensures var z, e, m := Store(d, offset, 0, 0), Store(d, offset, x, y), Weight(d, offset);
      && Plain0(e) == Plain0(z) + x as int + y as int
      && Plain1(e) == Plain1(z) + x as int + m * (x as int + y as int)
  {
    var z := Store(d, offset, 0, 0);
    var z' := z[offset := x];
    ChangeByte(z, offset, x);
    ChangeByte(z', offset + 1, y);
    assert z'[offset + 1 := y] == Store(d, offset, x, y);
    var m, a, b := Weight(d, offset), x as int, y as int;
    assert (m + 1) * a + m * b == a + m * (a + b);
  }

  /** x and y make both sums zero exactly when they solve these two congruences. */
  lemma ZeroSumsIff(d: Bytes, offset: nat, x: byte, y: byte)
    requires offset + 2 <= |d|
    ensures var z, m, a, b := Store(d, offset, 0, 0), Weight(d, offset), x as int, y as int;
      Checksum(Store(d, offset, x, y)) == 0 <==>
        Congruent(a + b, -Sum0(z)) && Congruent(a, m * Sum0(z) - Sum1(z))
  {
    hide Congruent;
    var z, e, m, a, b := Store(d, offset, 0, 0), Store(d, offset, x, y), Weight(d, offset), x as int, y as int;
    StoreSums(d, offset, x, y);
    SumsArePlain(z);
    SumsArePlain(e);
    SolveSums(Plain0(z), Sum0(z), Plain1(z), Sum1(z), m, a, b);
    ZeroSum(Sum0(e), Plain0(e));
    ZeroSum(Sum1(e), Plain1(e));
  }

  lemma ZeroSum(c: int, p: int)
    requires Congruent(c, p) && 0 <= c < 255
    ensures c == 0 <==> Congruent(p, 0)
  {
  }

  lemma Multiple(k: int, t: int)
    ensures Congruent(k * (255 * t), 0) && Congruent(255 * t, 0)
  {
    assert k * (255 * t) == 255 * (k * t);
  }

  lemma Quotient(a: int, b: int) returns (t: int)
    requires Congruent(a, b)
    ensures a == b + 255 * t
  {
    t := (a - b) / 255;
  }

  lemma SolveSums(p0: int, c0: int, p1: int, c1: int, m: int, a: int, b: int)
    requires Congruent(c0, p0) && Congruent(c1, p1)
    ensures Congruent(p0 + a + b, 0) && Congruent(p1 + a + m * (a + b), 0) <==>
      Congruent(a + b, -c0) && Congruent(a, m * c0 - c1)
  {
    hide Congruent;
    var t0 := Quotient(c0, p0);
    if Congruent(p0 + a + b, 0) {
      var t := Quotient(p0 + a + b, 0);
      FromQuotient(a + b, -c0, t + t0);
      SolveWeighted(p1, c1, m, a, a + b, c0, t + t0);
    }
    if Congruent(a + b, -c0) {
      var u := Quotient(a + b, -c0);
      FromQuotient(p0 + a + b, 0, u - t0);
      SolveWeighted(p1, c1, m, a, a + b, c0, u);
    }
  }

  lemma FromQuotient(a: int, b: int, t: int)
    requires a == b + 255 * t
    ensures Congruent(a, b)
  {
  }

  lemma SolveWeighted(p1: int, c1: int, m: int, a: int, sum: int, c0: int, u: int)
    requires Congruent(c1, p1) && sum == -c0 + 255 * u
    ensures Congruent(p1 + a + m * sum, 0) <==> Congruent(a, m * c0 - c1)
  {
    var t1 := Quotient(c1, p1);
    var k := m * u;
    assert m * sum == 255 * k - m * c0 by {
      assert m * (255 * u) == 255 * k;
    }
    assert p1 + a + m * sum == a - (m * c0 - c1) + 255 * (k - t1);
    Multiple(1, k - t1);
    ShiftByMultiple(a - (m * c0 - c1), 255 * (k - t1));
    SameDifference(a, m * c0 - c1);
  }

  lemma ShiftByMultiple(a: int, k: int)
    requires Congruent(k, 0)
    ensures Congruent(a + k, 0) <==> Congruent(a, 0)
  {
  }

  /** fletcher16GenerateChecksum: stored at the offset, the two bytes of the result make the
      checksum of the whole zero. Both lie in 1..255, and modulo 255 no others do. */
  method GenerateChecksum(data: Bytes, offset: nat) returns (c: int)
    requires offset + 2 <= |data|
    ensures 0 <= c < 0x1_0000
    ensures High(c) != 0 && Low(c) != 0
    ensures Checksum(Store(data, offset, High(c), Low(c))) == 0
    ensures forall x: byte, y: byte :: Checksum(Store(data, offset, x, y)) == 0 <==>
      (Congruent(x as int, High(c) as int) && Congruent(y as int, Low(c) as int))
  {
    hide Congruent, Sum0, Sum1, Checksum, Flatten, GoMod, High, Low;
    ghost var z := Store(data, offset, 0, 0);
    var c0, c1 := Fletcher16([data[..offset], [0, 0], data[offset + 2..]]);
    ThreeSlices(data[..offset], [0, 0], data[offset + 2..]);
    assert z == data[..offset] + [0, 0] + data[offset + 2..];

    var x := GoMod((|data| - offset - 1) * c0 - c1, 255);
    if x <= 0 {
      x := x + 255;
    }
    var y := 510 - c0 - x;
    if y > 255 {
      y := y - 255;
    }
    c := x * 256 + y;

    FirstByte((|data| - offset - 1) * c0 - c1, x);
    SecondByte(c0, x, y);
    SplitWord(x, y);
    OnlySolution(data, offset, x, y);
    CongruentItself(x);
    CongruentItself(y);
  }

  lemma FirstByte(a: int, x: int)
    requires x == if GoMod(a, 255) <= 0 then GoMod(a, 255) + 255 else GoMod(a, 255)
    ensures 1 <= x <= 255 && Congruent(x, a)
  {
    GoModCongruent(a);
    var t := Quotient(GoMod(a, 255), a);
    FromQuotient(x, a, if GoMod(a, 255) <= 0 then t + 1 else t);
  }

  lemma SecondByte(c0: int, x: int, y: int)
    requires 0 <= c0 < 255 && 1 <= x <= 255
    requires y == if 510 - c0 - x > 255 then 510 - c0 - x - 255 else 510 - c0 - x
    ensures 1 <= y <= 255 && Congruent(x + y, -c0)
  {
    FromQuotient(x + y, -c0, if 510 - c0 - x > 255 then 1 else 2);
  }

  lemma OnlySolution(data: Bytes, offset: nat, x: int, y: int)
    requires offset + 2 <= |data|
    requires var z := Store(data, offset, 0, 0);
      Congruent(x, Weight(data, offset) * Sum0(z) - Sum1(z)) && Congruent(x + y, -Sum0(z))
    ensures forall x': byte, y': byte :: Checksum(Store(data, offset, x', y')) == 0 <==>
      (Congruent(x' as int, x) && Congruent(y' as int, y))
  {
    hide Congruent, Sum0, Sum1, Checksum;
    var z, m := Store(data, offset, 0, 0), Weight(data, offset);
    forall x': byte, y': byte
      ensures Checksum(Store(data, offset, x', y')) == 0 <==> (Congruent(x' as int, x) && Congruent(y' as int, y))
    {
      ZeroSumsIff(data, offset, x', y');
      SameSolution(x' as int, y' as int, x, y, -Sum0(z), m * Sum0(z) - Sum1(z));
    }
  }

  lemma ThreeSlices(a: Bytes, b: Bytes, c: Bytes)
    ensures Flatten([a, b, c]) == a + b + c
  {
    assert [a, b, c][..2] == [a, b] && [a, b][..1] == [a] && [a][..0] == [];
    assert Flatten([a]) == Flatten([]) + a;
    assert Flatten([a, b]) == Flatten([a]) + b;
    assert Flatten([a, b, c]) == Flatten([a, b]) + c;
  }

  lemma GoModCongruent(a: int)
    ensures Congruent(GoMod(a, 255), a) && -255 < GoMod(a, 255) < 255
  {
    if a < 0 {
      CongruentMod(-a);
    }
  }

  lemma SplitWord(x: int, y: int)
    requires 0 <= x < 256 && 0 <= y < 256
    ensures High(x * 256 + y) as int == x && Low(x * 256 + y) as int == y
  {
  }

  lemma SameSolution(x': int, y': int, x: int, y: int, s: int, t: int)
    requires Congruent(x + y, s) && Congruent(x, t)
    ensures Congruent(x' + y', s) && Congruent(x', t) <==> Congruent(x', x) && Congruent(y', y)
  {
    var a := Quotient(x + y, s);
    var b := Quotient(x, t);
    if Congruent(x' + y', s) && Congruent(x', t) {
      var a' := Quotient(x' + y', s);
      var b' := Quotient(x', t);
      assert x' - x == 255 * (b' - b);
      assert y' - y == 255 * (a' - a - (b' - b));
    }
    if Congruent(x', x) && Congruent(y', y) {
      var u := Quotient(x', x);
      var v := Quotient(y', y);
      assert x' + y' - s == 255 * (u + v + a);
      assert x' - t == 255 * (u + b);
    }
  }

  /** In data with a valid checksum, a change of one byte goes unnoticed exactly when the new
      byte is the old one modulo 255. */
  lemma OneByteChange(d: Bytes, k: nat, b: byte)
    requires k < |d| && Checksum(d) == 0
    ensures Checksum(d[k := b]) == 0 <==> Congruent(b as int, d[k] as int)
  {
    hide Congruent;
    var e, delta := d[k := b], b as int - d[k] as int;
    ChangeByte(d, k, b);
    SumsArePlain(d);
    SumsArePlain(e);
    ZeroSum(Sum0(d), Plain0(d));
    ZeroSum(Sum1(d), Plain1(d));
    ZeroSum(Sum0(e), Plain0(e));
    ZeroSum(Sum1(e), Plain1(e));
    ShiftByMultiple(delta, Plain0(d));
    if Congruent(delta, 0) {
      WeightedMultiple(|d| - k, delta);
      ShiftByMultiple((|d| - k) * delta, Plain1(d));
    }
    SameDifference(b as int, d[k] as int);
  }

  lemma SameDifference(a: int, b: int)
    ensures Congruent(a, b) <==> Congruent(a - b, 0)
  {
  }

  lemma WeightedMultiple(w: int, delta: int)
    requires Congruent(delta, 0)
    ensures Congruent(w * delta, 0)
  {
    var t := Quotient(delta, 0);
    Multiple(w, t);
  }

  // ---------------------------------------------------------------- instances

  const MAX_AGE := 3600
  const MAX_AGE_DIFF := 900

  /** The fields that order two instances of one advertisement. */
  datatype Header = Header(sequenceNumber: int, checksum: nat, age: nat)

  function BigEndian(hi: byte, lo: byte): nat {
    hi as nat * 256 + lo as nat
  }

  /** lsaBase: the age and the encoded bytes, which also hold it. */
  class LSA {
    var age: nat
    const bytes: array<byte>

    ghost predicate Valid()
      reads this, bytes
    {
      bytes.Length >= 20 && age < 0x1_0000 && age == 256 * bytes[0] as nat + bytes[1] as nat
    }

    constructor (encoded: Bytes)
      requires |encoded| >= 20
      ensures Valid() && fresh(bytes) && bytes[..] == encoded
      ensures age == 256 * encoded[0] as nat + encoded[1] as nat
    {
      bytes := new byte[|encoded|](i requires 0 <= i < |encoded| => encoded[i]);
      age := BigEndian(encoded[0], encoded[1]);
    }

    /** The age changes in the field and in the bytes, and with it nothing else: a checksum
        that was valid stays valid, and one that was not stays so. */
    method SetAge(a: nat)
      requires Valid() && a < 0x1_0000
      modifies this`age, bytes
      ensures Valid() && age == a
      ensures bytes[0] as nat == a / 256 && bytes[1] as nat == a % 256
      ensures bytes[2..] == old(bytes[2..])
      ensures Checksum(bytes[2..]) == old(Checksum(bytes[2..]))
    {
      age := a;
      bytes[0] := High(a);
      bytes[1] := Low(a);
      assert bytes[2..] == old(bytes[2..]);
    }

    method IsChecksumValid() returns (ok: bool)
      requires Valid()
      ensures ok <==> Checksum(bytes[2..]) == 0
    {
      var d := bytes[2..];
      var c0, c1 := Fletcher16([d]);
      assert [d][..0] == [] && Flatten([d]) == Flatten([]) + d == d;
      ok := c1 * 256 + c0 == 0;
    }
  }

  // ---------------------------------------------------------------- recency

  /** Compare: 1 if a is more recent than b, -1 if less, 0 if neither. */
  function Compare(a: Header, b: Header): int {
    if a.sequenceNumber < b.sequenceNumber then -1
    else if a.sequenceNumber > b.sequenceNumber then 1
    else if a.checksum < b.checksum then -1
    else if a.checksum > b.checksum then 1
    else if a.age != MAX_AGE && b.age == MAX_AGE then -1
    else if a.age == MAX_AGE && b.age != MAX_AGE then 1
    else if Abs(a.age - b.age) > MAX_AGE_DIFF && a.age < b.age then 1
    else if Abs(a.age - b.age) > MAX_AGE_DIFF && a.age > b.age then -1
    else 0
  }

  /** How old an instance counts as: MaxAge is younger than everything, by more than the
      difference that ages must have to matter. */
  function Seniority(h: Header): int {
    if h.age == MAX_AGE then -(MAX_AGE_DIFF + 1) else h.age
  }

  /** a is more recent than b: lexicographically by sequence number and checksum, then by ages
      that differ enough. */
  predicate Newer(a: Header, b: Header) {
    || a.sequenceNumber > b.sequenceNumber
    || (a.sequenceNumber == b.sequenceNumber && a.checksum > b.checksum)
    || (a.sequenceNumber == b.sequenceNumber && a.checksum == b.checksum && Seniority(b) - Seniority(a) > MAX_AGE_DIFF)
  }

  lemma CompareIsNewer(a: Header, b: Header)
    ensures Compare(a, b) == 1 <==> Newer(a, b)
    ensures Compare(a, b) == -1 <==> Newer(b, a)
    ensures Compare(a, b) == -Compare(b, a)
  {
  }

  /** The rule on ages: of two instances that differ in nothing else, one is more recent if only
      it has reached 3600 seconds, or if neither has and it is younger by more than 900. */
  lemma AgeRule(a: Header, b: Header)
    requires a.sequenceNumber == b.sequenceNumber && a.checksum == b.checksum
    ensures Compare(a, b) == 1 <==>
      b.age != 3600 && (a.age == 3600 || b.age - a.age > 900)
  {
  }

  /** An interval order: of two comparable pairs, one's newer is newer than the other's older. */
  lemma NewerIsIntervalOrder(a: Header, b: Header, c: Header, d: Header)
    requires Compare(a, b) == 1 && Compare(c, d) == 1
    ensures Compare(a, d) == 1 || Compare(c, b) == 1
  {
    CompareIsNewer(a, b);
    CompareIsNewer(c, d);
    CompareIsNewer(a, d);
    CompareIsNewer(c, b);
  }

  ghost predicate EverNewer(chain: seq<Header>) {
    forall i :: 0 <= i < |chain| - 1 ==> Compare(chain[i + 1], chain[i]) == 1
  }

  /** A chain of ever newer instances never comes back, however long. */
  lemma {:induction false} NoRecencyCycle(chain: seq<Header>, i: nat, j: nat)
    requires EverNewer(chain) && i < j < |chain|
    ensures Compare(chain[j], chain[i]) == 1 && chain[i] != chain[j]
    decreases j
  {
    assert Compare(chain[j - 1 + 1], chain[j - 1]) == 1;
    if i < j - 1 {
      NoRecencyCycle(chain, i, j - 1);
      CompareIsNewer(chain[j], chain[j - 1]);
      CompareIsNewer(chain[j - 1], chain[i]);
      CompareIsNewer(chain[j], chain[i]);
    }
    CompareIsNewer(chain[j], chain[i]);
  }

  /** Ties are transitive just as far as seniorities stay close. */
  lemma TiesIff(a: Header, b: Header, c: Header)
    requires Compare(a, b) == 0 && Compare(b, c) == 0
    ensures Compare(a, c) == 0 <==> Abs(Seniority(a) - Seniority(c)) <= MAX_AGE_DIFF
  {
    CompareIsNewer(a, b);
    CompareIsNewer(b, c);
    CompareIsNewer(a, c);
  }

  /** Ties are not transitive: 0 and 900 seconds tie, 900 and 1800 tie, 0 and 1800 do not. */
  lemma TiesAreNotTransitive(a: Header, b: Header, c: Header)
    requires a.age == 0 && b == a.(age := 900) && c == a.(age := 1800)
    ensures Compare(a, b) == 0 && Compare(b, c) == 0 && Compare(a, c) == 1
  {
  }
}
