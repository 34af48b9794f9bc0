/** The decoders the glob matcher is used with, and the encodings that they undo. */
module UtfReading {
  import opened Pattern
  import opened PatternUnits

  // ------------------------------------------------------------------- UTF-16

  const SURROGATE_OFFSET: int := 0xD800 * 0x400 + 0xDC00 - 0x1_0000

  predicate IsLead16(unit: nat) {
    0xD800 <= unit < 0xDC00
  }

  predicate IsTrail16(unit: nat) {
    0xDC00 <= unit < 0xE000
  }

  /** `CBU16_NEXT`: an unpaired surrogate is read as itself. */
  function Next16(s: seq<nat>): Read {
    if s == [] then Read(SENTINEL, 0)
    else if IsLead16(s[0]) && |s| > 1 && IsTrail16(s[1]) then
      Read(s[0] * 0x400 + s[1] - SURROGATE_OFFSET, 2)
    else Read(s[0], 1)
  }

  function Encode16(c: char): seq<nat> {
    var n := c as nat;
    if n < 0x1_0000 then [n] else [n / 0x400 + 0xD7C0, n % 0x400 + 0xDC00]
  }

  lemma Decodes16(c: char, rest: seq<nat>)
    ensures Next16(Encode16(c) + rest) == Read(c as int, |Encode16(c)|)
  {
    var s := Encode16(c) + rest;
    assert s[0] == Encode16(c)[0];
    if c as nat >= 0x1_0000 {
      assert s[1] == Encode16(c)[1];
    }
  }

  lemma Utf16IsCoding()
    ensures IsCoding(Next16, Encode16)
  {
    forall c: char, rest: seq<nat>
      ensures Next16(Encode16(c) + rest) == Read(c as int, |Encode16(c)|)
    {
      Decodes16(c, rest);
    }
    forall c: char, i: nat, rest: seq<nat> | 0 < i < |Encode16(c)|
      ensures !IsCharacter(Next16(Encode16(c)[i..] + rest).value)
    {
      assert (Encode16(c)[i..] + rest)[0] == Encode16(c)[1];
    }
  }

  /** With an ill-formed pattern, a star does end inside a character: half a pair is found in the pair. */
  lemma HalfMatchesInside()
    ensures Advances(Next16) && UnitsAccept(Next16, ['*' as nat, 0xDC00], Encode16(0x1_0000 as char), 0)
  {
    Utf16IsCoding();
    var pair, half := Encode16(0x1_0000 as char), [0xDC00 as nat];
    assert pair == [0xD800, 0xDC00] && pair[1..] == half;
    assert ['*' as nat, 0xDC00][1..] == half;
    assert WildcardsEaten(Next16, half) == half;
    assert Behind(Next16, half) == [];
    assert UnitsAccept(Next16, half, pair[1..], 1);
  }

  // -------------------------------------------------------------------- UTF-8

  /** `CBU8_COUNT_TRAIL_BYTES`. */
  function CountTrailBytes(lead: nat): (n: nat)
    ensures n <= 5
  {
    if lead < 0xC0 then 0
    else if lead < 0xE0 then 1
    else if lead < 0xF0 then 2
    else if lead < 0xF8 then 3
    else if lead < 0xFC then 4
    else if lead < 0xFE then 5
    else 0
  }

  predicate IsTrail8(unit: nat) {
    0x80 <= unit < 0xC0
  }

  /** How many of the first `n` units are trail bytes, up to the first that is not. */
  function TrailRun(s: seq<nat>, n: nat): (k: nat)
    ensures k <= n && k <= |s|
  {
    if n == 0 || s == [] || !IsTrail8(s[0]) then 0 else 1 + TrailRun(s[1..], n - 1)
  }

  /** What `count` trail bytes add to the bits of the lead byte. */
  function Appended(bits: nat, trails: seq<nat>): nat
    decreases |trails|
  {
    if trails == [] then bits else Appended(bits * 0x40 + trails[0] % 0x40, trails[1..])
  }

  /** The bits of a lead byte, by how many trail bytes it announces. */
  function LeadBits(lead: nat, count: nat): nat
    requires 1 <= count <= 3
  {
    lead % if count == 1 then 0x20 else if count == 2 then 0x10 else 0x8
  }

  function MinimumOf(count: nat): nat
    requires 1 <= count <= 3
  {
    if count == 1 then 0x80 else if count == 2 then 0x800 else 0x1_0000
  }

  /** `CBU8_NEXT`, with `utf8_nextCharSafeBody` for what starts with a lead byte. */
  function Next8(s: seq<nat>): Read {
    if s == [] then Read(SENTINEL, 0)
    else if s[0] < 0x80 then Read(s[0], 1)
    else if !(0xC0 <= s[0] < 0xFE) then Read(SENTINEL, 1)
    else
      var count := CountTrailBytes(s[0]);
      if 1 + count > |s| then Read(SENTINEL, 1 + TrailRun(s[1..], |s|))
      else if count >= 4 || !IsLegal(s[0], s[1..1 + count]) then Read(SENTINEL, 1 + TrailRun(s[1..], count))
      else Read(Appended(LeadBits(s[0], count), s[1..1 + count]), 1 + count)
  }

  /** Trail bytes, the shortest form, a code point of Unicode and no surrogate. */
  predicate IsLegal(lead: nat, trails: seq<nat>) {
    && 1 <= |trails| <= 3
    && TrailRun(trails, |trails|) == |trails|
    && var value := Appended(LeadBits(lead, |trails|), trails);
       && (|trails| == 3 ==> LeadBits(lead, 3) * 0x40 + trails[0] % 0x40 < 0x110)
       && MinimumOf(|trails|) <= value && !(0xD800 <= value < 0xE000)
  }

  /** The bits that a trail byte takes off a number. */
  function Trail(n: nat): nat {
    0x80 + n % 0x40
  }

  lemma TrailIs(n: nat)
    ensures IsTrail8(Trail(n)) && n == n / 0x40 * 0x40 + Trail(n) % 0x40
  {
  }

  function Encode8(c: char): seq<nat> {
    var n := c as nat;
    if n < 0x80 then [n]
    else if n < 0x800 then [0xC0 + n / 0x40, Trail(n)]
    else if n < 0x1_0000 then [0xE0 + n / 0x1000, Trail(n / 0x40), Trail(n)]
    else [0xF0 + n / 0x4_0000, Trail(n / 0x1000), Trail(n / 0x40), Trail(n)]
  }

  lemma AppendedStep(bits: nat, t: nat, rest: seq<nat>)
    ensures Appended(bits, [t] + rest) == Appended(bits * 0x40 + t % 0x40, rest)
  {
    assert ([t] + rest)[1..] == rest;
  }

  lemma DivideTwice(n: nat)
    ensures n / 0x40 / 0x40 == n / 0x1000 && n / 0x1000 / 0x40 == n / 0x4_0000
  {
  }

  /** Taking the bits off one trail byte, and putting them back. */
  lemma BitsReturn(n: nat, bits: nat, rest: seq<nat>)
    requires bits == n / 0x40
    ensures Appended(bits, [Trail(n)] + rest) == Appended(n, rest)
  {
    hide Appended;
    AppendedStep(bits, Trail(n), rest);
    TrailIs(n);
  }

  lemma {:induction false} AllTrail(s: seq<nat>, n: nat)
    requires |s| == n && forall i :: 0 <= i < n ==> IsTrail8(s[i])
    ensures TrailRun(s, n) == n
  {
    if n > 0 {
      AllTrail(s[1..], n - 1);
    }
  }

  lemma TwoBytes(n: nat)
    requires 0x80 <= n < 0x800
    ensures var lead, trails := 0xC0 + n / 0x40, [Trail(n)];
            CountTrailBytes(lead) == 1 && IsLegal(lead, trails) && Appended(LeadBits(lead, 1), trails) == n
  {
    assert Appended(n, []) == n && [Trail(n)] == [Trail(n)] + [];
    BitsReturn(n, n / 0x40, []);
    TrailIs(n);
    hide Trail, Appended, TrailRun;
    AllTrail([Trail(n)], 1);
  }

  lemma ThreeBytes(n: nat)
    requires 0x800 <= n < 0x1_0000 && !(0xD800 <= n < 0xE000)
    ensures var lead, trails := 0xE0 + n / 0x1000, [Trail(n / 0x40), Trail(n)];
            CountTrailBytes(lead) == 2 && IsLegal(lead, trails) && Appended(LeadBits(lead, 2), trails) == n
  {
    TwoTrails(n, n / 0x40, n / 0x1000);
    hide Trail, Appended, TrailRun;
  }

  lemma TwoTrails(n: nat, m: nat, bits: nat)
    requires m == n / 0x40 && bits == n / 0x1000
    ensures Appended(bits, [Trail(m), Trail(n)]) == n && TrailRun([Trail(m), Trail(n)], 2) == 2
  {
    assert Appended(n, []) == n;
    DivideTwice(n);
    TrailIs(n);
    TrailIs(m);
    hide Trail, Appended, TrailRun;
    BitsReturn(n, m, []);
    BitsReturn(m, bits, [Trail(n)]);
    assert [Trail(n)] == [Trail(n)] + [] && [Trail(m), Trail(n)] == [Trail(m)] + [Trail(n)];
    AllTrail([Trail(m), Trail(n)], 2);
  }

  lemma ThreeTrails(n: nat, m: nat, k: nat, bits: nat)
    requires m == n / 0x40 && k == n / 0x1000 && bits == n / 0x4_0000
    ensures Appended(bits, [Trail(k), Trail(m), Trail(n)]) == n && TrailRun([Trail(k), Trail(m), Trail(n)], 3) == 3
    ensures bits * 0x40 + Trail(k) % 0x40 == k
  {
    DivideTwice(n);
    TrailIs(n);
    TrailIs(m);
    TrailIs(k);
    TwoTrails(n, m, k);
    hide Trail, Appended, TrailRun;
    BitsReturn(k, bits, [Trail(m), Trail(n)]);
    assert [Trail(k), Trail(m), Trail(n)] == [Trail(k)] + [Trail(m), Trail(n)];
    AllTrail([Trail(k), Trail(m), Trail(n)], 3);
  }

  lemma FourBytes(n: nat)
    requires 0x1_0000 <= n < 0x11_0000
    ensures var lead, trails := 0xF0 + n / 0x4_0000, [Trail(n / 0x1000), Trail(n / 0x40), Trail(n)];
            CountTrailBytes(lead) == 3 && IsLegal(lead, trails) && Appended(LeadBits(lead, 3), trails) == n
  {
    assert n / 0x1000 < 0x110;
    ThreeTrails(n, n / 0x40, n / 0x1000, n / 0x4_0000);
    hide Trail, Appended, TrailRun;
  }

  /** What is read where the announced trail bytes are there. */
  lemma ReadsLegal(lead: nat, trails: seq<nat>, rest: seq<nat>)
    requires 0xC0 <= lead < 0xFE && |trails| == CountTrailBytes(lead) && IsLegal(lead, trails)
    ensures Next8([lead] + trails + rest) == Read(Appended(LeadBits(lead, |trails|), trails), 1 + |trails|)
  {
    var s := [lead] + trails + rest;
    assert s[1..1 + |trails|] == trails;
  }

  lemma Decodes8(c: char, rest: seq<nat>)
    ensures Next8(Encode8(c) + rest) == Read(c as int, |Encode8(c)|)
  {
    hide IsLegal, Appended, TrailRun;
    var n := c as nat;
    if n < 0x80 {
    } else if n < 0x800 {
      TwoBytes(n);
      ReadsLegal(0xC0 + n / 0x40, [Trail(n)], rest);
      assert Encode8(c) == [0xC0 + n / 0x40] + [Trail(n)];
    } else if n < 0x1_0000 {
      ThreeBytes(n);
      ReadsLegal(0xE0 + n / 0x1000, [Trail(n / 0x40), Trail(n)], rest);
      assert Encode8(c) == [0xE0 + n / 0x1000] + [Trail(n / 0x40), Trail(n)];
    } else {
      FourBytes(n);
      ReadsLegal(0xF0 + n / 0x4_0000, [Trail(n / 0x1000), Trail(n / 0x40), Trail(n)], rest);
      assert Encode8(c) == [0xF0 + n / 0x4_0000] + [Trail(n / 0x1000), Trail(n / 0x40), Trail(n)];
    }
  }

  /** Every byte of a character but the first is a trail byte, which starts nothing. */
  lemma Middle8(c: char, i: nat, rest: seq<nat>)
    requires 0 < i < |Encode8(c)|
    ensures Next8(Encode8(c)[i..] + rest) == Read(SENTINEL, 1)
  {
    hide IsLegal, Appended;
    assert IsTrail8(Encode8(c)[i]) && (Encode8(c)[i..] + rest)[0] == Encode8(c)[i];
  }

  lemma Specials8(c: char)
    ensures Encode8(c) != []
    ensures if IsSpecial(c as nat) then Encode8(c) == [c as nat] else !IsSpecial(Encode8(c)[0])
  {
  }

  lemma Advances8(s: seq<nat>)
    requires s != []
    ensures 1 <= Next8(s).units <= |s|
  {
    hide IsLegal, Appended;
  }

  lemma Utf8IsCoding()
    ensures IsCoding(Next8, Encode8)
  {
    hide Next8, Encode8, IsSpecial;
    forall s: seq<nat> | s != []
      ensures 1 <= Next8(s).units <= |s|
    {
      Advances8(s);
    }
    forall c: char, rest: seq<nat>
      ensures Next8(Encode8(c) + rest) == Read(c as int, |Encode8(c)|)
    {
      Decodes8(c, rest);
    }
    forall c: char, i: nat, rest: seq<nat> | 0 < i < |Encode8(c)|
      ensures !IsCharacter(Next8(Encode8(c)[i..] + rest).value)
    {
      Middle8(c, i, rest);
    }
    forall c: char
      ensures Encode8(c) != []
      ensures if IsSpecial(c as nat) then Encode8(c) == [c as nat] else !IsSpecial(Encode8(c)[0])
    {
      Specials8(c);
    }
  }

  /** The encodings of some characters as literals. */
  lemma SomeEncodings()
    ensures Encode8('A') == [0x41] && Encode8(0xE9 as char) == [0xC3, 0xA9]
    ensures Encode8(0x20AC as char) == [0xE2, 0x82, 0xAC] && Encode8(0x1_F600 as char) == [0xF0, 0x9F, 0x98, 0x80]
    ensures Encode16(0x20AC as char) == [0x20AC] && Encode16(0x1_F600 as char) == [0xD83D, 0xDE00]
  {
  }

  // ------------------------------------------------------------- ill-formed text

  /** The reader of UTF-16 gives a character only for its encoding, and any other unit as itself. */
  lemma Next16IsExact(s: seq<nat>)
    requires s != [] && s[0] < 0x1_0000
    ensures
      var read := Next16(s);
      if IsCharacter(read.value) then Encode16(read.value as char) <= s && read.units == |Encode16(read.value as char)|
      else read == Read(s[0], 1) && 0xD800 <= s[0] < 0xE000
    ensures |s| > 1 && 0xD800 <= s[0] < 0xDC00 && 0xDC00 <= s[1] < 0xE000 ==> Next16(s).units == 2
  {
    if Next16(s).units == 2 {
      PairIs(s[0], s[1]);
      assert s[..2] == [s[0], s[1]];
    }
  }

  lemma PairIs(lead: nat, trail: nat)
    requires 0xD800 <= lead < 0xDC00 && 0xDC00 <= trail < 0xE000
    ensures
      var n := lead * 0x400 + trail - SURROGATE_OFFSET;
      0x1_0000 <= n < 0x11_0000 && n / 0x400 + 0xD7C0 == lead && n % 0x400 + 0xDC00 == trail
  {
    var n := (lead - 0xD7C0) * 0x400 + (trail - 0xDC00);
    assert n == lead * 0x400 + trail - SURROGATE_OFFSET;
    QuotientOf(lead - 0xD7C0, trail - 0xDC00);
  }

  lemma QuotientOf(high: nat, low: nat)
    ensures low < 0x40 ==> (high * 0x40 + low) / 0x40 == high && (high * 0x40 + low) % 0x40 == low
    ensures low < 0x400 ==> (high * 0x400 + low) / 0x400 == high && (high * 0x400 + low) % 0x400 == low
  {
  }

  /** A number put together from a front and a trail byte gives both back. */
  lemma TrailOf(front: nat, t: nat)
    requires IsTrail8(t)
    ensures var n := front * 0x40 + t % 0x40;
            n / 0x40 == front && Trail(n) == t
  {
    QuotientOf(front, t % 0x40);
  }

  lemma LegalTwo(lead: nat, t: nat)
    requires 0xC0 <= lead < 0xE0 && IsTrail8(t)
    requires var n := lead % 0x20 * 0x40 + t % 0x40; 0x80 <= n
    ensures var n := lead % 0x20 * 0x40 + t % 0x40;
            n < 0x800 && Encode8(n as char) == [lead, t]
  {
    TrailOf(lead % 0x20, t);
    hide Trail;
  }

  lemma LegalThree(lead: nat, t: nat, u: nat)
    requires 0xE0 <= lead < 0xF0 && IsTrail8(t) && IsTrail8(u)
    requires var n := (lead % 0x10 * 0x40 + t % 0x40) * 0x40 + u % 0x40; 0x800 <= n && !(0xD800 <= n < 0xE000)
    ensures var n := (lead % 0x10 * 0x40 + t % 0x40) * 0x40 + u % 0x40;
            n < 0x1_0000 && Encode8(n as char) == [lead, t, u]
  {
    var m := lead % 0x10 * 0x40 + t % 0x40;
    var n := m * 0x40 + u % 0x40;
    TrailOf(lead % 0x10, t);
    TrailOf(m, u);
    DivideTwice(n);
    hide Trail;
  }

  lemma LegalFour(lead: nat, t: nat, u: nat, v: nat)
    requires 0xF0 <= lead < 0xF8 && IsTrail8(t) && IsTrail8(u) && IsTrail8(v) && lead % 0x8 * 0x40 + t % 0x40 < 0x110
    requires var n := ((lead % 0x8 * 0x40 + t % 0x40) * 0x40 + u % 0x40) * 0x40 + v % 0x40; 0x1_0000 <= n
    ensures var n := ((lead % 0x8 * 0x40 + t % 0x40) * 0x40 + u % 0x40) * 0x40 + v % 0x40;
            n < 0x11_0000 && Encode8(n as char) == [lead, t, u, v]
  {
    var k := lead % 0x8 * 0x40 + t % 0x40;
    var m := k * 0x40 + u % 0x40;
    var n := m * 0x40 + v % 0x40;
    TrailOf(lead % 0x8, t);
    TrailOf(k, u);
    TrailOf(m, v);
    DivideTwice(n);
    hide Trail;
  }

  lemma {:induction false} TrailRunIs(s: seq<nat>, n: nat)
    ensures forall i :: 0 <= i < TrailRun(s, n) ==> 0x80 <= s[i] < 0xC0
    ensures TrailRun(s, n) < n && TrailRun(s, n) < |s| ==> !(0x80 <= s[TrailRun(s, n)] < 0xC0)
  {
    if n > 0 && s != [] && IsTrail8(s[0]) {
      TrailRunIs(s[1..], n - 1);
    }
  }

  lemma AppendedOne(bits: nat, t: nat)
    ensures Appended(bits, [t]) == bits * 0x40 + t % 0x40
  {
    assert [t][1..] == [];
  }

  lemma AppendedTwo(bits: nat, t: nat, u: nat)
    ensures Appended(bits, [t, u]) == (bits * 0x40 + t % 0x40) * 0x40 + u % 0x40
  {
    assert [t, u] == [t] + [u];
    AppendedStep(bits, t, [u]);
    AppendedOne(bits * 0x40 + t % 0x40, u);
  }

  lemma AppendedThree(bits: nat, t: nat, u: nat, v: nat)
    ensures Appended(bits, [t, u, v]) == ((bits * 0x40 + t % 0x40) * 0x40 + u % 0x40) * 0x40 + v % 0x40
  {
    assert [t, u, v] == [t] + [u, v];
    AppendedStep(bits, t, [u, v]);
    AppendedTwo(bits * 0x40 + t % 0x40, u, v);
  }

  /** The lead byte and the trail bytes are the encoding of the character they are read as. */
  ghost predicate IsEncoded(lead: nat, trails: seq<nat>, count: nat)
    requires 1 <= count <= 3
  {
    var n := Appended(LeadBits(lead, count), trails);
    IsCharacter(n) && Encode8(n as char) == [lead] + trails
  }

  lemma LegalWithOne(lead: nat, trails: seq<nat>)
    requires 0xC0 <= lead < 0xFE && |trails| == CountTrailBytes(lead) == 1 && IsLegal(lead, trails)
    ensures IsEncoded(lead, trails, 1)
  {
    TrailRunIs(trails, 1);
    hide Appended, TrailRun, Encode8;
    assert trails == [trails[0]];
    AppendedOne(LeadBits(lead, 1), trails[0]);
    LegalTwo(lead, trails[0]);
  }

  lemma LegalWithTwo(lead: nat, trails: seq<nat>)
    requires 0xC0 <= lead < 0xFE && |trails| == CountTrailBytes(lead) == 2 && IsLegal(lead, trails)
    ensures IsEncoded(lead, trails, 2)
  {
    TrailRunIs(trails, 2);
    hide Appended, TrailRun, Encode8;
    assert trails == [trails[0], trails[1]];
    AppendedTwo(LeadBits(lead, 2), trails[0], trails[1]);
    LegalThree(lead, trails[0], trails[1]);
  }

  lemma LegalWithThree(lead: nat, trails: seq<nat>)
    requires 0xC0 <= lead < 0xFE && |trails| == CountTrailBytes(lead) == 3 && IsLegal(lead, trails)
    ensures IsEncoded(lead, trails, 3)
  {
    TrailRunIs(trails, 3);
    hide Appended, TrailRun, Encode8;
    assert trails == [trails[0], trails[1], trails[2]];
    AppendedThree(LeadBits(lead, 3), trails[0], trails[1], trails[2]);
    LegalFour(lead, trails[0], trails[1], trails[2]);
  }

  /** What passes the checks is the encoding of a character. */
  lemma LegalIsEncoded(lead: nat, trails: seq<nat>)
    requires 0xC0 <= lead < 0xFE && |trails| == CountTrailBytes(lead) && IsLegal(lead, trails)
    ensures IsEncoded(lead, trails, |trails|)
  {
    assert 1 <= |trails| <= 3;
    hide IsLegal, IsEncoded;
    match |trails|
    case 1 => LegalWithOne(lead, trails);
    case 2 => LegalWithTwo(lead, trails);
    case _ => LegalWithThree(lead, trails);
  }

  /** How many trail bytes a byte announces, by the ranges of lead bytes; those from 0xF8 on are never legal. */
  function Announced(unit: nat): nat {
    if unit < 0xC0 || unit >= 0xFE then 0
    else if unit < 0xE0 then 1
    else if unit < 0xF0 then 2
    else if unit < 0xF8 then 3
    else if unit < 0xFC then 4
    else 5
  }

  /** The reader of UTF-8 gives a character only for its encoding. */
  lemma Next8IsExact(s: seq<nat>)
    requires s != []
    ensures
      var read := Next8(s);
      if IsCharacter(read.value)
      then Encode8(read.value as char) <= s && read.units == |Encode8(read.value as char)|
      else read.value == -1
  {
    hide IsLegal, Appended, TrailRun, LeadBits;
    if 0xC0 <= s[0] < 0xFE {
      var count := CountTrailBytes(s[0]);
      if 1 + count <= |s| && count < 4 && IsLegal(s[0], s[1..1 + count]) {
        LegalIsEncoded(s[0], s[1..1 + count]);
        assert s[..1 + count] == [s[0]] + s[1..1 + count];
      }
    }
  }

  /**
   Where it gives none, it goes past the byte and the trail bytes that follow, no more of them than the
   byte announces if so many bytes are left, and else all of them.
   */
  lemma Next8SkipsTrails(s: seq<nat>)
    requires s != [] && Next8(s).value == -1
    ensures
      var read, most := Next8(s), if Announced(s[0]) == 0 then 0
                                  else if 1 + Announced(s[0]) > |s| then |s| else Announced(s[0]);
      && 1 <= read.units <= 1 + most
      && (forall i :: 1 <= i < read.units ==> 0x80 <= s[i] < 0xC0)
      && (read.units <= most && read.units < |s| ==> !(0x80 <= s[read.units] < 0xC0))
  {
    hide IsLegal, Appended, TrailRun, LeadBits;
    var count := CountTrailBytes(s[0]);
    TrailRunIs(s[1..], count);
    TrailRunIs(s[1..], |s|);
    assert forall i :: 1 <= i < |s| ==> s[i] == s[1..][i - 1];
  }

  // ------------------------------------------------------------------ the calls

  /** `MatchPattern` on UTF-8. */
  method MatchPattern8(eval: seq<nat>, pattern: seq<nat>) returns (matched: bool)
    ensures Advances(Next8) && (matched <==> UnitsAccept(Next8, pattern, eval, 0))
    ensures AnswersFor(Encode8, pattern, eval, matched)
  {
    hide UnitsAccept, AnswersFor;
    Utf8IsCoding();
    AcceptingAnswers(Next8, Encode8, pattern, eval);
    matched := MatchPatternT(Next8, eval, pattern, 0);
  }

  /** `MatchPattern` on UTF-16. */
  method MatchPattern16(eval: seq<nat>, pattern: seq<nat>) returns (matched: bool)
    ensures Advances(Next16) && (matched <==> UnitsAccept(Next16, pattern, eval, 0))
    ensures AnswersFor(Encode16, pattern, eval, matched)
  {
    hide UnitsAccept, AnswersFor;
    Utf16IsCoding();
    AcceptingAnswers(Next16, Encode16, pattern, eval);
    matched := MatchPatternT(Next16, eval, pattern, 0);
  }
}
