/** UTF-8 up to six bytes, as in section 2 of RFC 2279: the encoder, the validator, and the two
    decoders. Masks and shifts are written as remainders and quotients by powers of two. */
module PcreUtf8 {
  import opened Arithmetic
  import opened Basics

  const MAX_CODE := 0x7fff_ffff

  // ------------------------------------------------------------ tables

  /** _pcre_utf8_table1: the largest code of each length. */
  function Table1(i: nat): nat
    requires i < 6
  {
    [0x7f, 0x7ff, 0xffff, 0x1f_ffff, 0x3ff_ffff, 0x7fff_ffff][i]
  }

  /** _pcre_utf8_table2: the marker bits of the first byte. */
  function Table2(i: nat): Byte
    requires i < 6
  {
    [0, 0xc0, 0xe0, 0xf0, 0xf8, 0xfc][i]
  }

  /** _pcre_utf8_table3, plus one: the first byte holds a number below this. */
  function Table3(i: nat): nat
    requires i < 6
  {
    [0x100, 0x20, 0x10, 0x08, 0x04, 0x02][i]
  }

  /** _pcre_utf8_table4: the number of further bytes, by the low six bits of the first. */
  function Table4(b: nat): (i: nat)
    requires b < 64
    ensures 1 <= i <= 5
  {
    if b < 32 then 1 else if b < 48 then 2 else if b < 56 then 3 else if b < 60 then 4 else 5
  }

  // ------------------------------------------------------------ encodings

  function Pow64(i: nat): (p: nat)
    ensures p > 0
  {
    if i == 0 then 1 else 64 * Pow64(i - 1)
  }

  /** The last `i` groups of six bits, each in a byte that starts with 10. */
  ghost function Tail(v: nat, i: nat): (r: seq<Byte>)
    ensures |r| == i
    ensures forall k :: 0 <= k < i ==> 0x80 <= r[k] < 0xc0
  {
    if i == 0 then [] else Tail(v / 64, i - 1) + [0x80 + v % 64]
  }

  /** How many bytes follow the first. */
  ghost function Extra(v: nat): (i: nat)
    requires v <= MAX_CODE
    ensures i <= 5
  {
    if v <= 0x7f then 0 else if v <= 0x7ff then 1 else if v <= 0xffff then 2 else if v <= 0x1f_ffff then 3
    else if v <= 0x3ff_ffff then 4 else 5
  }

  /** The shortest form of a code. */
  ghost function Encode(v: nat): (r: seq<Byte>)
    requires v <= MAX_CODE
    ensures 1 <= |r| <= 6
  {
    Powers(v);
    [Table2(Extra(v)) + v / Pow64(Extra(v))] + Tail(v, Extra(v))
  }

  lemma {:induction false} Powers(v: nat)
    requires v <= MAX_CODE
    ensures Pow64(0) == 1 && Pow64(1) == 0x40 && Pow64(2) == 0x1000 && Pow64(3) == 0x4_0000 && Pow64(4) == 0x100_0000
    ensures Pow64(5) == 0x4000_0000
    ensures v / Pow64(Extra(v)) < if Extra(v) == 0 then 0x80 else Table3(Extra(v))
  {
    assert Pow64(1) == 64 * Pow64(0);
    assert Pow64(3) == 64 * Pow64(2);
    assert Pow64(5) == 64 * Pow64(4);
  }

  /** The forms of section 2 of RFC 2279, written out. */
  lemma {:induction false} EncodedForms(v: nat)
    requires v <= MAX_CODE
    ensures v < 0x80 ==> Encode(v) == [v]
    ensures 0x80 <= v < 0x800 ==> Encode(v) == [0xc0 + v / 0x40, 0x80 + v % 0x40]
    ensures 0x800 <= v < 0x1_0000 ==> Encode(v) == [0xe0 + v / 0x1000, 0x80 + v / 0x40 % 0x40, 0x80 + v % 0x40]
    ensures 0x1_0000 <= v < 0x20_0000 ==>
              Encode(v) == [0xf0 + v / 0x4_0000, 0x80 + v / 0x1000 % 0x40, 0x80 + v / 0x40 % 0x40, 0x80 + v % 0x40]
    ensures 0x20_0000 <= v < 0x400_0000 ==>
              Encode(v) == [0xf8 + v / 0x100_0000, 0x80 + v / 0x4_0000 % 0x40, 0x80 + v / 0x1000 % 0x40,
                            0x80 + v / 0x40 % 0x40, 0x80 + v % 0x40]
    ensures 0x400_0000 <= v ==>
              Encode(v) == [0xfc + v / 0x4000_0000, 0x80 + v / 0x100_0000 % 0x40, 0x80 + v / 0x4_0000 % 0x40,
                            0x80 + v / 0x1000 % 0x40, 0x80 + v / 0x40 % 0x40, 0x80 + v % 0x40]
  {
    hide Tail;
    Powers(v);
    var n := Extra(v);
    forall k | 0 <= k < n ensures Tail(v, n)[k] == 0x80 + v / Pow64(n - 1 - k) % 0x40 {
      TailByte(v, n, k);
    }
    assert v / 1 == v;
  }

  ghost predicate Codes(vs: seq<nat>) { forall i :: 0 <= i < |vs| ==> vs[i] <= MAX_CODE }

  ghost function EncodeAll(vs: seq<nat>): seq<Byte>
    requires Codes(vs)
  {
    if vs == [] then [] else EncodeAll(vs[..|vs| - 1]) + Encode(vs[|vs| - 1])
  }

  /** A string of whole characters in shortest form. */
  ghost predicate IsUtf8(s: seq<Byte>) {
    exists vs: seq<nat> :: Codes(vs) && EncodeAll(vs) == s
  }

  // ------------------------------------------------------------ reading back

  /** The number in groups of six bits. */
  ghost function Sextets(s: seq<Byte>): nat {
    if s == [] then 0 else Sextets(s[..|s| - 1]) * 64 + s[|s| - 1] % 64
  }

  ghost predicate Continues(s: seq<Byte>) {
    forall k :: 0 <= k < |s| ==> s[k] / 64 == 2
  }

  lemma {:induction false} TailSextets(v: nat, i: nat)
    ensures Sextets(Tail(v, i)) == v % Pow64(i)
  {
    if i > 0 {
      var t := Tail(v, i);
      assert t[..i - 1] == Tail(v / 64, i - 1);
      TailSextets(v / 64, i - 1);
      DivMod(v, Pow64(i - 1));
    }
  }

  lemma {:induction false} DivMod(v: nat, p: nat)
    requires p > 0
    ensures (v / 64 % p) * 64 + v % 64 == v % (64 * p)
  {
    var q, r := v / 64 / p, v / 64 % p;
    assert v == 64 * (v / 64) + v % 64;
    assert v / 64 == q * p + r;
    assert v == (64 * p) * q + (64 * r + v % 64);
    DivUnique(v, 64 * p, q, 64 * r + v % 64);
  }

  /** Six-bit groups are the tail of the number they make. */
  lemma {:induction false} SextetsTail(s: seq<Byte>, high: nat)
    requires Continues(s)
    ensures Sextets(s) < Pow64(|s|)
    ensures Tail(high * Pow64(|s|) + Sextets(s), |s|) == s
    ensures (high * Pow64(|s|) + Sextets(s)) / Pow64(|s|) == high
  {
    hide Tail, Sextets, Pow64;
    var n := |s|;
    TailLast(s, high * Pow64(n) + Sextets(s));
    if n > 0 {
      var front, b := s[..n - 1], s[n - 1];
      SextetsTail(front, high);
      SextetStep(high, Pow64(n - 1), Sextets(front), b);
    }
  }

  /** Unfolding at the last byte. */
  lemma {:induction false} TailLast(s: seq<Byte>, v: nat)
    requires Continues(s)
    ensures |s| == 0 ==> Sextets(s) == 0 && Pow64(|s|) == 1 && Tail(v, |s|) == s
    ensures |s| > 0 ==>
              && Sextets(s) == Sextets(s[..|s| - 1]) * 64 + s[|s| - 1] % 64 && Pow64(|s|) == 64 * Pow64(|s| - 1)
              && (v % 64 == s[|s| - 1] % 64 && Tail(v / 64, |s| - 1) == s[..|s| - 1] ==> Tail(v, |s|) == s)
  {
    if |s| > 0 {
      assert s == s[..|s| - 1] + [s[|s| - 1]];
    }
  }

  lemma {:induction false} SextetStep(high: nat, p: nat, t: nat, b: nat)
    requires p > 0 && t < p
    ensures var v := high * (64 * p) + (t * 64 + b % 64);
            v / 64 == high * p + t && v % 64 == b % 64 && v / (64 * p) == high && t * 64 + b % 64 < 64 * p
  {
    var v := high * (64 * p) + (t * 64 + b % 64);
    assert v == 64 * (high * p + t) + b % 64;
    DivUnique(v, 64, high * p + t, b % 64);
    DivUnique(v, 64 * p, high, t * 64 + b % 64);
  }

  /** What the first byte of a character says. */
  function FurtherBytes(c: Byte): nat { if c / 64 == 3 then Table4(c % 64) else 0 }

  /** The code that bytes stand for, given how many follow the first. */
  ghost function ValueOf(s: seq<Byte>): nat
    requires s != [] && |s| <= 6
  {
    (if |s| == 1 then s[0] else s[0] % Table3(|s| - 1)) * Pow64(|s| - 1) + Sextets(s[1..])
  }

  lemma {:induction false} LeadByte(i: nat, q: nat)
    requires 1 <= i <= 5 && q < Table3(i)
    ensures Table2(i) + q < 256 && (Table2(i) + q) / 64 == 3 && Table4((Table2(i) + q) % 64) == i
            && (Table2(i) + q) % Table3(i) == q
  {}

  /** The first byte tells the length; all bytes together give back the code. */
  lemma {:induction false} Decoded(v: nat)
    requires v <= MAX_CODE
    ensures var e := Encode(v);
            && |e| == FurtherBytes(e[0]) + 1 && (|e| > 1 ==> e[0] / 64 == 3) && (|e| == 1 ==> e[0] < 128)
            && Continues(e[1..]) && ValueOf(e) == v
  {
    hide Pow64, Tail, Sextets, Table4, Table3, Table2;
    var e, i := Encode(v), Extra(v);
    Powers(v);
    assert e[1..] == Tail(v, i);
    TailSextets(v, i);
    TailContinues(v, i);
    var q := v / Pow64(i);
    assert v == Pow64(i) * q + v % Pow64(i);
    if i > 0 {
      LeadByte(i, q);
    } else {
      assert e[0] == v by {
        NoMarker();
      }
    }
  }

  lemma {:induction false} NoMarker()
    ensures Table2(0) == 0
  {}

  lemma {:induction false} TailContinues(v: nat, i: nat)
    ensures Continues(Tail(v, i))
  {}

  // ------------------------------------------------------------ shortest forms

  /** The validator's tests for each length, on the first two bytes. */
  predicate NotOverlong(c: Byte, second: Byte, ab: nat) {
    match ab
    case 1 => c % 64 / 2 != 0
    case 2 => !(c == 0xe0 && second / 32 % 2 == 0)
    case 3 => !(c == 0xf0 && second / 16 % 4 == 0)
    case 4 => !(c == 0xf8 && second / 8 % 8 == 0)
    case _ => c != 0xfe && c != 0xff && !(c == 0xfc && second / 4 % 16 == 0)
  }

  /** A first byte, and as many continuation bytes as it asks for. */
  ghost predicate Shape(s: seq<Byte>) {
    s != [] && s[0] / 64 == 3 && |s| == FurtherBytes(s[0]) + 1 && Continues(s[1..])
  }

  lemma {:induction false} SextetsFront(s: seq<Byte>)
    requires s != []
    ensures Sextets(s) == s[0] % 64 * Pow64(|s| - 1) + Sextets(s[1..])
  {
    var n := |s| - 1;
    if n > 0 {
      SextetsFront(s[..n]);
      assert s[..n][1..] == s[1..][..n - 1] && s[1..][n - 1] == s[n];
      assert s[0] % 64 * Pow64(n) == (s[0] % 64 * Pow64(n - 1)) * 64;
    } else {
      assert s[..0] == [] && s[1..] == [];
      assert s[0] % 64 * 1 == s[0] % 64;
    }
  }

  /** The parts of a character of more than one byte, as numbers. */
  lemma {:induction false} Parts(s: seq<Byte>) returns (rest: nat)
    requires Shape(s)
    ensures 2 <= |s| <= 6
    ensures var i := |s| - 1;
            rest < Pow64(i - 1) && ValueOf(s) == s[0] % Table3(i) * Pow64(i) + s[1] % 64 * Pow64(i - 1) + rest
  {
    var t := s[1..];
    SextetsFront(t);
    SextetsTail(t[1..], 0);
    rest := Sextets(t[1..]);
  }

  lemma {:induction false} RangeOf(i: nat, c: Byte, second: Byte, rest: nat, v: nat)
    requires 1 <= i <= 5 && c / 64 == 3 && FurtherBytes(c) == i && second / 64 == 2 && rest < Pow64(i - 1)
    requires v == c % Table3(i) * Pow64(i) + second % 64 * Pow64(i - 1) + rest
    ensures v <= Table1(i) <= MAX_CODE && (c < 0xfe ==> c == Table2(i) + c % Table3(i))
    ensures c < 0xfe ==> (NotOverlong(c, second, i) <==> v > Table1(i - 1))
    ensures c >= 0xfe ==> !NotOverlong(c, second, i)
  {
    Powers(0);
  }

  lemma {:induction false} ExtraIs(v: nat, i: nat)
    requires 1 <= i <= 5 && v <= Table1(i)
    ensures v <= MAX_CODE && (Extra(v) == i <==> v > Table1(i - 1))
  {}

  /** A whole character is in shortest form just if the tests on its first two bytes pass. */
  lemma {:induction false} ShortForm(s: seq<Byte>)
    requires Shape(s)
    ensures 2 <= |s| && ValueOf(s) <= MAX_CODE
    ensures NotOverlong(s[0], s[1], |s| - 1) <==> Encode(ValueOf(s)) == s
  {
    hide NotOverlong, Pow64, Sextets, Encode, ValueOf, Table4;
    var rest := Parts(s);
    var i := |s| - 1;
    var v := ValueOf(s);
    RangeOf(i, s[0], s[1], rest, v);
    ExtraIs(v, i);
    if s[0] < 0xfe && v > Table1(i - 1) {
      Rebuilt(s, i);
    } else if Encode(v) == s {
      Decoded(v);
      EncodedExtra(v);
    }
  }

  lemma {:induction false} EncodedExtra(v: nat)
    requires v <= MAX_CODE
    ensures |Encode(v)| == Extra(v) + 1 && Encode(v)[0] < 0xfe
  {
    Powers(v);
  }

  lemma {:induction false} Rebuilt(s: seq<Byte>, i: nat)
    requires Shape(s) && |s| == i + 1 && 1 <= i <= 5 && s[0] == Table2(i) + s[0] % Table3(i)
    requires ValueOf(s) <= MAX_CODE && Extra(ValueOf(s)) == i
    ensures Encode(ValueOf(s)) == s
  {
    hide Table2, Pow64, Sextets, Tail, Table4;
    SextetsTail(s[1..], s[0] % Table3(i));
    Powers(ValueOf(s));
    assert s == [s[0]] + s[1..];
  }

  // ------------------------------------------------------------ characters at the front

  /** Some code's shortest form is at the front. */
  ghost predicate Starts(t: seq<Byte>) {
    exists v :: 0 <= v <= MAX_CODE && Encode(v) <= t
  }

  /** When a character is at the front of a string. */
  lemma {:induction false} StartsIff(t: seq<Byte>)
    requires t != []
    ensures Starts(t) <==>
              if t[0] < 128 then true
              else
                && t[0] / 64 == 3 && FurtherBytes(t[0]) < |t| && Continues(t[1..FurtherBytes(t[0]) + 1])
                && NotOverlong(t[0], t[1], FurtherBytes(t[0]))
  {
    hide NotOverlong, Encode, ValueOf;
    if v :| 0 <= v <= MAX_CODE && Encode(v) <= t {
      FrontIs(t, v);
    }
    if t[0] < 128 {
      Ascii(t);
    } else if t[0] / 64 == 3 && FurtherBytes(t[0]) < |t| && Continues(t[1..FurtherBytes(t[0]) + 1]) {
      var s := t[..FurtherBytes(t[0]) + 1];
      assert s[1..] == t[1..FurtherBytes(t[0]) + 1];
      ShortForm(s);
    }
  }

  lemma {:induction false} Ascii(t: seq<Byte>)
    requires t != [] && t[0] < 128
    ensures Encode(t[0]) == [t[0]] && Starts(t)
  {
    assert Tail(t[0], 0) == [];
    assert Pow64(0) == 1;
    assert Encode(t[0]) == [t[0]];
    assert Encode(t[0]) <= t;
  }

  /** The bytes of a character at the front are those its first byte asks for. */
  lemma {:induction false} FrontIs(t: seq<Byte>, v: nat)
    requires v <= MAX_CODE && Encode(v) <= t
    ensures t != [] && FurtherBytes(t[0]) < |t| && t[..FurtherBytes(t[0]) + 1] == Encode(v) && |Encode(v)| <= 6
    ensures v == ValueOf(Encode(v))
    ensures t[0] >= 128 ==>
              && t[0] / 64 == 3 && FurtherBytes(t[0]) >= 1 && Continues(t[1..FurtherBytes(t[0]) + 1])
              && NotOverlong(t[0], t[1], FurtherBytes(t[0]))
  {
    hide NotOverlong, Encode, ValueOf;
    Decoded(v);
    var e := Encode(v);
    assert e[0] == t[0] && t[..|e|] == e;
    if t[0] >= 128 {
      assert t[1..|e|] == e[1..];
      ShortForm(e);
    }
  }

  /** At most one code is at the front of a string. */
  lemma {:induction false} FrontUnique(t: seq<Byte>, v: nat, w: nat)
    requires v <= MAX_CODE && w <= MAX_CODE && Encode(v) <= t && Encode(w) <= t
    ensures v == w
  {
    hide Encode, ValueOf;
    FrontIs(t, v);
    FrontIs(t, w);
  }

  lemma {:induction false} EncodePrefix(vs: seq<nat>, k: nat)
    requires Codes(vs) && k <= |vs|
    ensures EncodeAll(vs[..k]) <= EncodeAll(vs)
  {
    if k < |vs| {
      EncodePrefix(vs[..|vs| - 1], k);
      assert vs[..|vs| - 1][..k] == vs[..k];
    } else {
      assert vs[..k] == vs;
    }
  }

  /** Codes whose encodings agree as far as the shorter goes agree themselves. */
  lemma {:induction false} Aligned(us: seq<nat>, vs: seq<nat>)
    requires Codes(us) && Codes(vs) && EncodeAll(us) <= EncodeAll(vs)
    ensures us <= vs
  {
    hide Encode;
    if us != [] {
      var n := |us| - 1;
      var front := us[..n];
      EncodePrefix(us, n);
      Aligned(front, vs);
      assert |vs| == n ==> vs == front;
      var done, all := EncodeAll(front), EncodeAll(vs);
      EncodeSome(us[n]);
      if n < |vs| {
        NextCode(vs, n);
        assert vs[..n] == front;
        assert Encode(us[n]) <= all[|done|..] by {
          assert EncodeAll(us)[|done|..] == Encode(us[n]);
        }
        FrontUnique(all[|done|..], us[n], vs[n]);
      }
    }
  }

  lemma {:induction false} EncodeSome(v: nat)
    requires v <= MAX_CODE
    ensures |Encode(v)| > 0
  {}

  lemma {:induction false} NextCode(vs: seq<nat>, n: nat)
    requires Codes(vs) && n < |vs|
    ensures EncodeAll(vs[..n]) <= EncodeAll(vs) && Encode(vs[n]) <= EncodeAll(vs)[|EncodeAll(vs[..n])|..]
  {
    hide Encode;
    EncodePrefix(vs, n);
    EncodePrefix(vs, n + 1);
    assert vs[..n + 1][..n] == vs[..n];
    var a, b := EncodeAll(vs[..n]), EncodeAll(vs[..n + 1]);
    assert b == a + Encode(vs[n]);
    assert b[|a|..] == Encode(vs[n]);
  }

  /** In a valid string, wherever whole characters end another one starts. */
  lemma {:induction false} StartsNext(s: seq<Byte>, us: seq<nat>, p: nat)
    requires IsUtf8(s) && Codes(us) && p < |s| && s[..p] == EncodeAll(us)
    ensures Starts(s[p..])
  {
    hide Encode;
    var vs: seq<nat> :| Codes(vs) && EncodeAll(vs) == s;
    Aligned(us, vs);
    assert us == vs[..|us|];
    assert |us| == |vs| ==> us == vs;
    if |us| < |vs| {
      NextCode(vs, |us|);
    }
  }

  // ------------------------------------------------------------ _pcre_ord2utf8

  lemma {:induction false} TailByte(v: nat, i: nat, k: nat)
    requires k < i
    ensures Tail(v, i)[k] as int == 0x80 + v / Pow64(i - 1 - k) % 64
    decreases i
  {
    if k < i - 1 {
      TailByte(v / 64, i - 1, k);
      DivDiv(v, Pow64(i - 2 - k));
    } else {
      assert Pow64(0) == 1;
    }
  }

  lemma {:induction false} DivDiv(v: nat, p: nat)
    requires p > 0
    ensures v / 64 / p == v / (64 * p)
  {
    var q, r := v / 64 / p, v / 64 % p;
    assert v / 64 == p * q + r;
    assert v == (64 * p) * q + (64 * r + v % 64);
    DivUnique(v, 64 * p, q, 64 * r + v % 64);
  }

  /** Write the encoding of a code to the start of a buffer, last byte first. */
  method Ord2Utf8(cvalue: nat, buffer: array<Byte>) returns (n: nat)
    requires cvalue <= MAX_CODE && buffer.Length >= 6
    modifies buffer
    ensures n == |Encode(cvalue)| && buffer[..n] == Encode(cvalue) && buffer[n..] == old(buffer[n..])
  {
    hide Encode, Pow64, Tail;
    var i := LengthOf(cvalue);
    var at, j, c := i, i, cvalue;
    Powers(cvalue);
    assert c == cvalue / Pow64(0);
    while j > 0
      invariant 0 <= at == j <= i && c == cvalue / Pow64(i - j)
      invariant forall k :: j < k <= i ==> buffer[k] as int == 0x80 + cvalue / Pow64(i - k) % 64
      invariant forall k :: i < k < buffer.Length ==> buffer[k] == old(buffer[k])
    {
      buffer[at] := 0x80 + c % 64;
      at := at - 1;
      NextPower(cvalue, i - j);
      c := c / 64;
      j := j - 1;
    }
    LeadFits(cvalue);
    buffer[at] := Table2(i) + c;
    n := i + 1;
    EncodeByte(cvalue, 0);
    forall k | 0 <= k < n ensures buffer[..n][k] == Encode(cvalue)[k] {
      EncodeByte(cvalue, k);
    }
  }

  lemma {:induction false} NextPower(v: nat, i: nat)
    ensures v / Pow64(i + 1) == v / Pow64(i) / 64
  {
    assert Pow64(i + 1) == 64 * Pow64(i);
    var p := Pow64(i);
    var q, r := v / p / 64, v / p % 64;
    assert v / p == 64 * q + r && v == p * (v / p) + v % p;
    assert v == p * (64 * q + r) + v % p == (64 * p) * q + (p * r + v % p);
    TimesLeft(r + 1, 64, p);
    DivUnique(v, 64 * p, q, p * r + v % p);
  }

  lemma {:induction false} LeadFits(v: nat)
    requires v <= MAX_CODE
    ensures Table2(Extra(v)) + v / Pow64(Extra(v)) < 256
  {
    Powers(v);
  }

  lemma {:induction false} EncodeByte(v: nat, k: nat)
    requires v <= MAX_CODE && k <= Extra(v)
    ensures |Encode(v)| == Extra(v) + 1
    ensures Encode(v)[k] as int == if k == 0 then Table2(Extra(v)) + v / Pow64(Extra(v))
                                   else 0x80 + v / Pow64(Extra(v) - k) % 64
  {
    hide Table2, Tail;
    Powers(v);
    if k > 0 {
      TailByte(v, Extra(v), k - 1);
    }
  }

  // ------------------------------------------------------------ _pcre_valid_utf8

  /** The length of a string that ends with a zero byte. */
  method ZeroTerminated(text: seq<Byte>) returns (length: nat)
    requires 0 in text
    ensures length < |text| && text[length] == 0 && 0 !in text[..length]
  {
    length := 0;
    while text[length] != 0
      invariant 0 <= length < |text| && 0 !in text[..length] && 0 in text[length..]
      decreases |text| - length
    {
      assert text[length..] == [text[length]] + text[length + 1..];
      assert text[..length + 1] == text[..length] + [text[length]];
      length := length + 1;
    }
  }

  /** The bad byte of the character that should start at `p`: the first, if it starts none or more bytes should follow
      than do; else the first that should be a continuation byte and is not, or the second if the two make the form
      too long. */
  ghost predicate BadByte(s: seq<Byte>, p: nat, r: nat)
    requires p < |s|
  {
    var n := FurtherBytes(s[p]);
    if s[p] / 64 != 3 || p + n >= |s| then r == p
    else
      && p < r <= p + n && (forall k :: p < k < r ==> s[k] / 64 == 2)
      && (if r == p + 1 then s[r] / 64 != 2 || !NotOverlong(s[p], s[r], n)
          else s[r] / 64 != 2 && NotOverlong(s[p], s[p + 1], n))
  }

  /** Where a string goes wrong: after whole characters, no character starts. */
  ghost predicate BadAt(s: seq<Byte>, r: nat) {
    exists p: nat :: p < |s| && IsUtf8(s[..p]) && !Starts(s[p..]) && BadByte(s, p, r)
  }

  /** -1 for a string of whole characters in shortest form, else the offset of a bad byte. */
  method ValidUtf8(text: seq<Byte>, len: int) returns (r: int)
    requires len < 0 ==> 0 in text
    requires len <= |text|
    ensures exists length: nat :: length <= |text|
                                  && (if len < 0 then length < |text| && text[length] == 0 && 0 !in text[..length]
                                      else length == len)
              && (if IsUtf8(text[..length]) then r == -1 else r >= 0 && BadAt(text[..length], r))
  {
    var length: nat;
    if len < 0 {
      length := ZeroTerminated(text);
    } else {
      length := len;
    }
    r := CheckUtf8(text[..length]);
    assert r == -1 <==> IsUtf8(text[..length]);
  }

  method CheckUtf8(s: seq<Byte>) returns (r: int)
    ensures if IsUtf8(s) then r == -1 else r >= 0 && BadAt(s, r)
  {
    hide Encode, IsUtf8, Starts, BadAt, BadByte;
    var p := 0;
    ghost var us: seq<nat> := [];
    NoCodes(s);
    while p < |s|
      invariant 0 <= p <= |s| && Codes(us) && EncodeAll(us) == s[..p]
    {
      var bad := CheckChar(s, p);
      if bad >= 0 {
        Wrong(s, us, p, bad);
        return bad;
      }
      us := OneMore(s, us, p);
      p := p + FurtherBytes(s[p]) + 1;
    }
    assert s[..p] == s;
    AllRight(s, us);
    r := -1;
  }

  lemma {:induction false} NoCodes(s: seq<Byte>)
    ensures Codes([]) && EncodeAll([]) == s[..0]
  {}

  lemma {:induction false} AllRight(s: seq<Byte>, us: seq<nat>)
    requires Codes(us) && EncodeAll(us) == s
    ensures IsUtf8(s)
  {}

  lemma {:induction false} Wrong(s: seq<Byte>, us: seq<nat>, p: nat, r: nat)
    requires Codes(us) && p < |s| && EncodeAll(us) == s[..p] && !Starts(s[p..]) && BadByte(s, p, r)
    ensures !IsUtf8(s) && BadAt(s, r)
  {
    AllRight(s[..p], us);
    if IsUtf8(s) {
      StartsNext(s, us, p);
    }
  }

  lemma {:induction false} OneMore(s: seq<Byte>, us: seq<nat>, p: nat) returns (more: seq<nat>)
    requires Codes(us) && p < |s| && EncodeAll(us) == s[..p] && Starts(s[p..])
    ensures p + FurtherBytes(s[p]) < |s| && Codes(more) && EncodeAll(more) == s[..p + FurtherBytes(s[p]) + 1]
  {
    hide Encode;
    var v :| 0 <= v <= MAX_CODE && Encode(v) <= s[p..];
    FrontIs(s[p..], v);
    more := us + [v];
    assert more[..|us|] == us;
    var n := FurtherBytes(s[p]) + 1;
    assert s[p..][..n] == s[p..p + n];
    assert s[..p] + s[p..p + n] == s[..p + n];
  }

  /** One character: negative if it is in order, else the bad byte. */
  method CheckChar(s: seq<Byte>, start: nat) returns (r: int)
    requires start < |s|
    ensures r < 0 <==> Starts(s[start..])
    ensures r >= 0 ==> BadByte(s, start, r)
  {
    hide NotOverlong, Starts;
    var p := start;
    var c := s[p];
    var length := |s| - start - 1;
    StartsIff(s[start..]);
    if c < 128 {
      return -1;
    }
    if c / 64 != 3 {
      return p;
    }
    var ab := Table4(c % 64);
    if length < ab {
      return p;
    }
    ghost var tail := s[start..][1..ab + 1];
    assert forall k :: 0 <= k < ab ==> tail[k] == s[start + 1 + k];
    p := p + 1;
    if s[p] / 64 != 2 {
      assert tail[0] == s[p];
      return p;
    }
    if !NotOverlong(c, s[p], ab) {
      return p;
    }
    var left := ab - 1;
    while left > 0
      invariant 0 <= left < ab && p == start + ab - left
      invariant forall k :: 0 <= k < ab - left ==> tail[k] / 64 == 2
      invariant forall k :: start < k <= p ==> s[k] / 64 == 2
    {
      p := p + 1;
      if s[p] / 64 != 2 {
        assert tail[p - start - 1] == s[p];
        return p;
      }
      left := left - 1;
    }
    return -1;
  }

  // ------------------------------------------------------------ GETCHARINC

  /** The character at a place, and the place after it. */
  method GetCharInc(s: seq<Byte>, at: nat) returns (c: nat, next: nat)
    requires at < |s| && at + FurtherBytes(s[at]) < |s|
    ensures next == at + FurtherBytes(s[at]) + 1
    ensures forall v :: 0 <= v <= MAX_CODE && Encode(v) <= s[at..] ==> c == v
  {
    hide Encode, Pow64, Shifted, ValueOf, Table3;
    c, next := s[at], at + 1;
    if c / 64 == 3 {
      var gcaa := Table4(c % 64);
      ghost var n := gcaa;
      MaskNotZero(gcaa);
      c := (c % Table3(gcaa)) * Pow64(gcaa);
      ghost var base, tail: seq<Byte> := c, [];
      ShiftedNext([], 0, gcaa - 1);
      while gcaa > 0
        invariant 0 <= gcaa <= n && next == at + 1 + n - gcaa && tail == s[at + 1..next]
                  && c == base + Shifted(tail, gcaa)
      {
        gcaa := gcaa - 1;
        ShiftedNext(tail, s[next], gcaa);
        c := c + s[next] % 64 * Pow64(gcaa);
        tail := tail + [s[next]];
        next := next + 1;
      }
      assert s[at..][1..n + 1] == tail;
      forall v | 0 <= v <= MAX_CODE && Encode(v) <= s[at..] ensures c == v {
        FrontIs(s[at..], v);
        ValueParts(s[at..], n);
      }
    } else {
      forall v | 0 <= v <= MAX_CODE && Encode(v) <= s[at..] ensures c == v {
        FrontIs(s[at..], v);
        OneByte(s[at..]);
      }
    }
  }

  lemma {:induction false} MaskNotZero(i: nat)
    requires i < 6
    ensures Table3(i) > 0
  {}

  /** Groups of six bits, shifted left by `g` groups more. */
  ghost function Shifted(t: seq<Byte>, g: nat): nat { Sextets(t) * Pow64(g) }

  lemma {:induction false} ShiftedNext(t: seq<Byte>, b: Byte, g: nat)
    ensures Shifted(t + [b], g) == Shifted(t, g + 1) + b % 64 * Pow64(g)
    ensures Shifted([], g + 1) == 0
  {
    assert (t + [b])[..|t|] == t;
    var x, y, p := Sextets(t), b as int % 64, Pow64(g);
    assert (x * 64 + y) * p == x * (64 * p) + y * p;
  }

  lemma {:induction false} ValueParts(t: seq<Byte>, n: nat)
    requires t != [] && 1 <= n <= 5 && n < |t|
    ensures ValueOf(t[..n + 1]) == t[0] % Table3(n) * Pow64(n) + Shifted(t[1..n + 1], 0)
  {
    assert t[..n + 1][1..] == t[1..n + 1];
    assert Pow64(0) == 1;
  }

  lemma {:induction false} OneByte(t: seq<Byte>)
    requires t != []
    ensures ValueOf(t[..1]) == t[0]
  {
    assert t[..1][1..] == [];
    assert Pow64(0) == 1;
  }

  /** Reading a string character by character gives back the codes it was made from. */
  method DecodeAll(s: seq<Byte>, ghost vs: seq<nat>) returns (r: seq<nat>)
    requires Codes(vs) && s == EncodeAll(vs)
    ensures r == vs
  {
    hide Encode;
    r := [];
    var p := 0;
    assert vs[..0] == [];
    EncodePrefix(vs, 0);
    while p < |s|
      invariant |r| <= |vs| && r == vs[..|r|] && p == |EncodeAll(vs[..|r|])| <= |s|
    {
      ghost var k := |r|;
      assert vs[..|vs|] == vs;
      NextCode(vs, k);
      FrontIs(s[p..], vs[k]);
      EncodeStep(vs, k);
      var c;
      c, p := GetCharInc(s, p);
      r := r + [c];
    }
    assert |r| == |vs| ==> r == vs;
    if |r| < |vs| {
      NextCode(vs, |r|);
    }
  }

  lemma {:induction false} EncodeStep(vs: seq<nat>, k: nat)
    requires Codes(vs) && k < |vs|
    ensures EncodeAll(vs[..k + 1]) == EncodeAll(vs[..k]) + Encode(vs[k])
    ensures EncodeAll(vs[..k + 1]) <= EncodeAll(vs) && vs[..k + 1] == vs[..k] + [vs[k]]
  {
    EncodePrefix(vs, k + 1);
    assert vs[..k + 1][..k] == vs[..k];
  }

  // ------------------------------------------------------------ utf82ord

  /** Reading past the end yields the zero that ends a string. */
  function At(s: seq<Byte>, i: nat): Byte { if i < |s| then s[i] else 0 }

  /** One bits at the top of a byte, at most seven of them counted. */
  ghost function LeadingOnes(c: Byte): nat {
    if c < 0x80 then 0 else if c < 0xc0 then 1 else if c < 0xe0 then 2 else if c < 0xf0 then 3 else if c < 0xf8 then 4
    else if c < 0xfc then 5 else if c < 0xfe then 6 else 7
  }

  /** The loop that counts them: shift left until the top bit is clear. */
  method CountOnes(c: Byte) returns (i: int)
    ensures i == LeadingOnes(c) - 1
  {
    var d: nat := c;
    i := -1;
    ghost var k: nat := 0;
    while i < 6
      invariant -1 <= i <= 6 && k == i + 1 && d == c * Pow2(k) && k <= LeadingOnes(c)
    {
      OneBit(c, k);
      if d / 128 % 2 == 0 {
        break;
      }
      d := d * 2;
      i := i + 1;
      k := k + 1;
    }
  }

  function Pow2(k: nat): nat { if k == 0 then 1 else 2 * Pow2(k - 1) }

  lemma {:induction false} OneBit(c: Byte, k: nat)
    requires k <= LeadingOnes(c) && k < 7
    ensures c * Pow2(k) / 128 % 2 == (if k < LeadingOnes(c) then 1 else 0)
    ensures c * Pow2(k) * 2 == c * Pow2(k + 1)
  {
    assert Pow2(0) == 1 && Pow2(1) == 2 && Pow2(2) == 4;
    assert Pow2(3) == 2 * Pow2(2) && Pow2(4) == 2 * Pow2(3) && Pow2(5) == 2 * Pow2(4) && Pow2(6) == 2 * Pow2(5)
           && Pow2(7) == 2 * Pow2(6);
  }

  /** What the offset says: the first byte starts no character; or the byte there is the first that should be a
      continuation byte and is not; or it is the byte after the character, which is too long a form. */
  ghost predicate BadOrd(buffer: seq<Byte>, at: nat)
    requires buffer != []
  {
    var n := FurtherBytes(buffer[0]);
    if buffer[0] / 64 != 3 || buffer[0] >= 0xfe then at == 0
    else
      && 0 < at <= n + 1 && (forall k :: 0 < k < at ==> At(buffer, k) / 64 == 2)
      && (at <= n ==> At(buffer, at) / 64 != 2)
  }

  /** The checked decoder: the number of bytes and the code, or minus the offset of the bad byte. */
  method Utf82Ord(buffer: seq<Byte>) returns (r: int, vptr: nat)
    requires buffer != []
    ensures r > 0 <==> Starts(buffer)
    ensures r > 0 ==> vptr <= MAX_CODE && Encode(vptr) <= buffer && r == |Encode(vptr)|
    ensures r <= 0 ==> BadOrd(buffer, -r)
  {
    hide Encode, Pow64, Shifted, ValueOf, Starts, NotOverlong;
    var c := buffer[0];
    vptr := 0;
    var i := CountOnes(c);
    StartsIff(buffer);
    if i == -1 {
      Ascii(buffer);
      return 1, c;
    }
    if i == 0 || i == 6 {
      TopByte(buffer);
      OnesRange(c);
      return 0, 0;
    }
    OnesTable(c);
    var n: nat := i;
    var d, j := ReadTail(buffer, n);
    if j < n {
      BadTail(buffer, j);
      return -(j + 1), 0;
    }
    WholeChar(buffer, n, c % Table3(n), d);
    var t := LengthOf(d);
    if t != n {
      return -(n + 1), 0;
    }
    return n + 1, d;
  }

  /** The first length whose largest code is not below the code. */
  method LengthOf(d: nat) returns (t: nat)
    requires d <= MAX_CODE
    ensures t == Extra(d)
  {
    t := 0;
    while t < 6 && d > Table1(t)
      invariant 0 <= t <= 6 && forall k :: 0 <= k < t ==> d > Table1(k)
    {
      t := t + 1;
    }
    assert Table1(5) == MAX_CODE && (t > 0 ==> d > Table1(t - 1));
    if t > 0 {
      ExtraIs(d, t);
    }
  }

  /** Collect the bits of `n` continuation bytes; stop at the first byte that is none. */
  method ReadTail(buffer: seq<Byte>, n: nat) returns (d: nat, j: nat)
    requires buffer != [] && 1 <= n <= 5
    ensures j <= n && (j < n ==> At(buffer, 1 + j) / 64 != 2)
    ensures forall k :: 0 < k <= j ==> At(buffer, k) / 64 == 2
    ensures j == n ==> n < |buffer| && Continues(buffer[1..n + 1])
                       && d == buffer[0] % Table3(n) * Pow64(n) + Shifted(buffer[1..n + 1], 0)
  {
    hide Pow64, Shifted;
    j, d := 0, (buffer[0] % Table3(n)) * Pow64(n);
    ghost var base, tail: seq<Byte> := d, [];
    ShiftedNext([], 0, n - 1);
    while j < n
      invariant 0 <= j <= n && j < |buffer| && tail == buffer[1..j + 1] && Continues(tail)
                && d == base + Shifted(tail, n - j)
      invariant forall k :: 0 < k <= j ==> At(buffer, k) / 64 == 2
    {
      var b := At(buffer, 1 + j);
      if b / 64 != 2 {
        return;
      }
      ShiftedNext(tail, b, n - j - 1);
      d := d + b % 64 * Pow64(n - j - 1);
      tail := tail + [b];
      j := j + 1;
    }
  }

  lemma {:induction false} OnesTable(c: Byte)
    requires 2 <= LeadingOnes(c) <= 6
    ensures c / 64 == 3 && FurtherBytes(c) == LeadingOnes(c) - 1 && c < 0xfe
  {}

  lemma {:induction false} OnesRange(c: Byte)
    ensures LeadingOnes(c) == 1 || LeadingOnes(c) == 7 ==> c / 64 != 3 || c >= 0xfe
  {}

  /** Bytes that no character starts with. */
  lemma {:induction false} TopByte(t: seq<Byte>)
    requires t != [] && (LeadingOnes(t[0]) == 1 || LeadingOnes(t[0]) == 7)
    ensures !Starts(t)
  {
    StartsIff(t);
  }

  lemma {:induction false} BadTail(t: seq<Byte>, j: nat)
    requires t != [] && t[0] >= 128 && j < FurtherBytes(t[0]) && At(t, 1 + j) / 64 != 2
    ensures !Starts(t)
  {
    hide NotOverlong, Starts;
    StartsIff(t);
    if FurtherBytes(t[0]) < |t| {
      assert t[1..FurtherBytes(t[0]) + 1][j] == At(t, 1 + j);
    }
  }

  /** A character whose bytes have the right shape: its code, and whether it is the shortest form. */
  lemma {:induction false} WholeChar(t: seq<Byte>, n: nat, lead: nat, d: nat)
    requires t != [] && 2 <= LeadingOnes(t[0]) <= 6 && n == LeadingOnes(t[0]) - 1 && n < |t| && Continues(t[1..n + 1])
    requires lead == t[0] % Table3(n) && d == lead * Pow64(n) + Shifted(t[1..n + 1], 0)
    ensures d <= MAX_CODE && d == ValueOf(t[..n + 1])
    ensures Starts(t) <==> Extra(d) == n
    ensures Extra(d) == n ==> Encode(d) <= t && |Encode(d)| == n + 1
  {
    hide Encode, Pow64, Shifted, ValueOf, Starts, NotOverlong;
    OnesTable(t[0]);
    var s := t[..n + 1];
    assert s[1..] == t[1..n + 1];
    ValueParts(t, n);
    ShortForm(s);
    StartsIff(t);
    EncodedExtra(d);
    if Extra(d) == n {
      LeadIs(t[0]);
      Rebuilt(s, n);
    }
  }

  lemma {:induction false} LeadIs(c: Byte)
    requires 2 <= LeadingOnes(c) <= 6
    ensures var i := LeadingOnes(c) - 1; c == Table2(i) + c % Table3(i)
  {}

  // ------------------------------------------------------------ BACKCHAR

  /** Move back to the start of the character that a byte is part of. */
  method BackChar(s: seq<Byte>, at: nat, ghost before: seq<nat>, ghost v: nat) returns (p: nat)
    requires Codes(before) && v <= MAX_CODE && EncodeAll(before) + Encode(v) <= s
    requires |EncodeAll(before)| <= at < |EncodeAll(before)| + |Encode(v)|
    ensures p == |EncodeAll(before)|
  {
    hide Encode, EncodeAll, ValueOf;
    ghost var start, e := |EncodeAll(before)|, Encode(v);
    Decoded(v);
    assert forall k :: 0 <= k < |e| ==> s[start + k] == (EncodeAll(before) + e)[start + k] == e[k];
    assert forall i :: start < i < start + |e| ==> s[i] == e[1..][i - start - 1] && s[i] / 64 == 2;
    p := at;
    while s[p] / 64 == 2
      invariant start <= p <= at
      decreases p
    {
      assert p != start;
      p := p - 1;
    }
  }
}
