/** The base64url codec of the MEGA bridge: unpadded, with canonical pad bits (section 5 of RFC 4648,
    pad bits as in section 3.5). Both directions keep their bits in a 32-bit accumulator that wraps. */
module Base64Url {
  import opened Common

  type Byte = b: nat | b < 256
  type Digit = d: nat | d < 64

  const WORD := 0x1_0000_0000
  const MAX_ENCODED := 32 * 1024
  const MAX_DECODED := 24576

  // ----- the alphabet -----

  function StandardChar(d: Digit): char {
    if d < 26 then ('A' as int + d) as char
    else if d < 52 then ('a' as int + d - 26) as char
    else if d < 62 then ('0' as int + d - 52) as char
    else if d == 62 then '+' else '/'
  }

  function UrlSafe(c: char): char {
    if c == '+' then '-' else if c == '/' then '_' else c
  }

  function UrlChar(d: Digit): char {
    UrlSafe(StandardChar(d))
  }

  /** Both alphabets have a value; the decoder refuses '+' and '/' beforehand. */
  function Base64Value(c: char): int {
    if 'A' <= c <= 'Z' then c as int - 'A' as int
    else if 'a' <= c <= 'z' then c as int - 'a' as int + 26
    else if '0' <= c <= '9' then c as int - '0' as int + 52
    else if c == '+' || c == '-' then 62
    else if c == '/' || c == '_' then 63
    else -1
  }

  lemma AlphabetIsOneToOne(d: Digit, c: char)
    ensures Base64Value(UrlChar(d)) == d && UrlChar(d) != '+' && UrlChar(d) != '/' && UrlChar(d) != '='
    ensures Base64Value(c) >= 0 && c != '+' && c != '/' ==> Base64Value(c) < 64 && UrlChar(Base64Value(c)) == c
  {
  }

  // ----- the bit stream -----

  function Pow2(n: nat): (p: nat)
    requires n <= 6
    ensures p > 0
  {
    [1, 2, 4, 8, 16, 32, 64][n]
  }

  /** Digits of a byte stream after `k` pending bits with value `r`; `k` is 0, 2 or 4. */
  function Digits(bytes: seq<Byte>, r: nat, k: nat): seq<Digit>
    requires (k == 0 && r == 0) || (k == 2 && r < 4) || (k == 4 && r < 16)
  {
    if bytes == [] then
      if k == 0 then [] else if k == 2 then [r * 16] else [r * 4]
    else
      var x := r * 256 + bytes[0];
      if k == 0 then [x / 4] + Digits(bytes[1..], x % 4, 2)
      else if k == 2 then [x / 16] + Digits(bytes[1..], x % 16, 4)
      else [x / 64, x % 64] + Digits(bytes[1..], 0, 0)
  }

  /** Bytes of a digit stream after `k` pending bits with value `q`; `k` is 0, 2, 4 or 6. The pad bits
      that remain at the end must be zero. */
  function Octets(digits: seq<Digit>, q: nat, k: nat): Option<seq<Byte>>
    requires (k == 0 && q == 0) || (k == 2 && q < 4) || (k == 4 && q < 16) || (k == 6 && q < 64)
  {
    if digits == [] then
      if q == 0 then Some([]) else None
    else
      var x := q * 64 + digits[0];
      if k == 0 then Octets(digits[1..], x, 6)
      else
        var rest :=
          if k == 6 then Octets(digits[1..], x % 16, 4)
          else if k == 4 then Octets(digits[1..], x % 4, 2)
          else Octets(digits[1..], 0, 0);
        var byte: Byte := if k == 6 then x / 16 else if k == 4 then x / 4 else x;
        if rest.None? then None else Some([byte] + rest.value)
  }

  /** Digits by groups: three bytes are one 24-bit number whose four digits follow, most significant first;
      a last pair is a 16-bit number with two zero bits, a last byte one with four (section 4 of RFC 4648). */
  lemma DigitGroups(a: Byte, b: Byte, c: Byte, rest: seq<Byte>)
    ensures exists d: Digit, e: Digit, f: Digit, g: Digit ::
              && Digits([a, b, c] + rest, 0, 0) == [d, e, f, g] + Digits(rest, 0, 0)
              && ((d * 64 + e) * 64 + f) * 64 + g == (a * 256 + b) * 256 + c
    ensures exists d: Digit, e: Digit, f: Digit ::
              Digits([a, b], 0, 0) == [d, e, f] && (d * 64 + e) * 64 + f == (a * 256 + b) * 4
    ensures exists d: Digit, e: Digit ::
              Digits([a], 0, 0) == [d, e] && d * 64 + e == a * 16
  {
    ThreeBytes(a, b, c, rest);
    TwoBytes(a, b);
    assert [a][1..] == [] && Digits([a], 0, 0) == [a / 4, (a % 4) * 16];
  }

  lemma ThreeBytes(a: Byte, b: Byte, c: Byte, rest: seq<Byte>)
    ensures exists d: Digit, e: Digit, f: Digit, g: Digit ::
              && Digits([a, b, c] + rest, 0, 0) == [d, e, f, g] + Digits(rest, 0, 0)
              && ((d * 64 + e) * 64 + f) * 64 + g == (a * 256 + b) * 256 + c
  {
    LastOfThree(a % 4, b, c, rest);
    var e: Digit, f: Digit, g: Digit :|
      && Digits([b, c] + rest, a % 4, 2) == [e, f, g] + Digits(rest, 0, 0)
      && (e * 64 + f) * 64 + g == ((a % 4) * 256 + b) * 256 + c;
    var d: Digit := a / 4;
    assert ([a, b, c] + rest)[1..] == [b, c] + rest;
    assert Digits([a, b, c] + rest, 0, 0) == [d, e, f, g] + Digits(rest, 0, 0);
  }

  lemma LastOfThree(r: nat, b: Byte, c: Byte, rest: seq<Byte>)
    requires r < 4
    ensures exists e: Digit, f: Digit, g: Digit ::
              && Digits([b, c] + rest, r, 2) == [e, f, g] + Digits(rest, 0, 0)
              && (e * 64 + f) * 64 + g == (r * 256 + b) * 256 + c
  {
    var x := r * 256 + b;
    LastOfTwo(x % 16, c, rest);
    var f: Digit, g: Digit :|
      Digits([c] + rest, x % 16, 4) == [f, g] + Digits(rest, 0, 0) && f * 64 + g == (x % 16) * 256 + c;
    var e: Digit := x / 16;
    assert ([b, c] + rest)[1..] == [c] + rest;
    assert Digits([b, c] + rest, r, 2) == [e, f, g] + Digits(rest, 0, 0);
  }

  lemma LastOfTwo(r: nat, c: Byte, rest: seq<Byte>)
    requires r < 16
    ensures exists f: Digit, g: Digit ::
              Digits([c] + rest, r, 4) == [f, g] + Digits(rest, 0, 0) && f * 64 + g == r * 256 + c
  {
    var y := r * 256 + c;
    var f: Digit, g: Digit := y / 64, y % 64;
    assert ([c] + rest)[1..] == rest;
    assert Digits([c] + rest, r, 4) == [f, g] + Digits(rest, 0, 0);
  }

  lemma TwoBytes(a: Byte, b: Byte)
    ensures exists d: Digit, e: Digit, f: Digit ::
              Digits([a, b], 0, 0) == [d, e, f] && (d * 64 + e) * 64 + f == (a * 256 + b) * 4
  {
    var x := (a % 4) * 256 + b;
    var d: Digit, e: Digit, f: Digit := a / 4, x / 16, (x % 16) * 4;
    assert [a, b][1..] == [b] && [b][1..] == [];
    assert Digits([b], a % 4, 2) == [e, f];
    assert Digits([a, b], 0, 0) == [d, e, f];
  }

  /** Decoding the digits of a byte stream gives the bytes. */
  lemma {:induction false} OctetsOfDigits(bytes: seq<Byte>)
    ensures Octets(Digits(bytes, 0, 0), 0, 0) == Some(bytes)
    decreases |bytes|
  {
    if bytes != [] {
      var b := bytes[0];
      var ds := Digits(bytes, 0, 0);
      OctetsAfterTwo(bytes[1..], b / 4, b % 4);
      assert ds[0] == b / 4 && ds[1..] == Digits(bytes[1..], b % 4, 2);
      assert bytes == [b] + bytes[1..];
    }
  }

  /** Six bits of a byte have been decoded; the encoder holds the last two. */
  lemma {:induction false} OctetsAfterTwo(bytes: seq<Byte>, q: nat, r: nat)
    requires q < 64 && r < 4
    ensures Octets(Digits(bytes, r, 2), q, 6) == Some([q * 4 + r] + bytes)
    decreases |bytes|
  {
    var ds := Digits(bytes, r, 2);
    if bytes == [] {
      assert ds[1..] == [];
      assert q * 64 + ds[0] == 16 * (q * 4 + r);
    } else {
      var x := r * 256 + bytes[0];
      OctetsAfterFour(bytes[1..], (x / 16) % 16, x % 16);
      assert ds[0] == x / 16 && ds[1..] == Digits(bytes[1..], x % 16, 4);
      SecondDigit(q, r, bytes[0]);
      assert bytes == [bytes[0]] + bytes[1..];
    }
  }

  /** Four bits of a byte have been decoded; the encoder holds the last four. */
  lemma {:induction false} OctetsAfterFour(bytes: seq<Byte>, q: nat, r: nat)
    requires q < 16 && r < 16
    ensures Octets(Digits(bytes, r, 4), q, 4) == Some([q * 16 + r] + bytes)
    decreases |bytes|
  {
    var ds := Digits(bytes, r, 4);
    if bytes == [] {
      assert ds[1..] == [];
      assert q * 64 + ds[0] == 4 * (q * 16 + r);
    } else {
      var x := r * 256 + bytes[0];
      OctetsOfDigits(bytes[1..]);
      var ds' := ds[1..];
      assert ds'[0] == x % 64 && ds'[1..] == Digits(bytes[1..], 0, 0);
      FourthDigit(q, r, bytes[0]);
      var y := q * 64 + ds[0];
      assert bytes == [bytes[0]] + bytes[1..];
      assert Octets(ds', y % 4, 2) == Some(bytes);
    }
  }

  lemma SecondDigit(q: nat, r: nat, b: Byte)
    requires q < 64 && r < 4
    ensures var x := r * 256 + b;
            var y := q * 64 + x / 16;
            && y / 16 == q * 4 + r && y % 16 == (x / 16) % 16 && ((x / 16) % 16) * 16 + x % 16 == b
  {
  }

  lemma FourthDigit(q: nat, r: nat, b: Byte)
    requires r < 16 && q < 16
    ensures var x := r * 256 + b;
            var y := q * 64 + x / 64;
            && y / 4 == q * 16 + r && y % 4 < 4 && (y % 4) * 64 + x % 64 == b
  {
  }

  lemma LeadingDigits(q: nat, d: nat)
    requires q < 64 && d < 64
    ensures var b := q * 4 + d / 16;
            (q * 64 + d) / 16 == b && (q * 64 + d) % 16 == d % 16 && b / 4 == q && b % 4 == d / 16
  {
    assert q * 64 + d == 16 * (q * 4 + d / 16) + d % 16;
    assert q * 4 + d / 16 == 4 * q + d / 16;
  }

  lemma MiddleDigits(q: nat, r: nat, d: nat)
    requires q < 16 && r < 4 && d < 64
    ensures var b := q * 16 + d / 4;
            && (q * 64 + d) / 4 == b && (q * 64 + d) % 4 == d % 4
            && (r * 256 + b) / 16 == r * 16 + q && (r * 256 + b) % 16 == d / 4
  {
    assert q * 64 + d == 4 * (q * 16 + d / 4) + d % 4;
    assert r * 256 + (q * 16 + d / 4) == 16 * (r * 16 + q) + d / 4;
  }

  lemma StepAfterOne(digits: seq<Digit>, q: nat)
    requires digits != [] && q < 64 && Octets(digits, q, 6).Some?
    requires var d := digits[0];
             var rest := Octets(digits[1..], d % 16, 4);
             rest.Some? && Digits(rest.value, d / 16, 2) == [(d / 16) * 16 + d % 16] + digits[1..]
    ensures Digits(Octets(digits, q, 6).value, 0, 0) == [q] + digits
  {
    var d := digits[0];
    LeadingDigits(q, d);
    var bytes := Octets(digits, q, 6).value;
    assert bytes[0] == q * 4 + d / 16 && bytes[1..] == Octets(digits[1..], d % 16, 4).value;
    assert digits == [d] + digits[1..];
  }

  lemma StepAfterTwo(digits: seq<Digit>, q: nat, r: nat)
    requires digits != [] && q < 16 && r < 4 && Octets(digits, q, 4).Some?
    requires var d := digits[0];
             var rest := Octets(digits[1..], d % 4, 2);
             rest.Some? && Digits(rest.value, d / 4, 4) == [(d / 4) * 4 + d % 4] + digits[1..]
    ensures Digits(Octets(digits, q, 4).value, r, 2) == [r * 16 + q] + digits
  {
    var d := digits[0];
    MiddleDigits(q, r, d);
    var bytes := Octets(digits, q, 4).value;
    assert bytes[0] == q * 16 + d / 4 && bytes[1..] == Octets(digits[1..], d % 4, 2).value;
    assert digits == [d] + digits[1..];
  }

  lemma StepAfterThree(digits: seq<Digit>, q: nat, r: nat)
    requires digits != [] && q < 4 && r < 16 && Octets(digits, q, 2).Some?
    requires var rest := Octets(digits[1..], 0, 0);
             rest.Some? && Digits(rest.value, 0, 0) == digits[1..]
    ensures Digits(Octets(digits, q, 2).value, r, 4) == [r * 4 + q] + digits
  {
    var d := digits[0];
    var bytes := Octets(digits, q, 2).value;
    assert bytes[0] == q * 64 + d && bytes[1..] == Octets(digits[1..], 0, 0).value;
    var y := r * 256 + bytes[0];
    assert y / 64 == r * 4 + q && y % 64 == d;
    assert digits == [d] + digits[1..];
  }

  /** Encoding what was decoded gives the digits back, unless they stop one digit into a group. */
  lemma {:induction false} DigitsOfOctets(digits: seq<Digit>)
    requires Octets(digits, 0, 0).Some? && |digits| % 4 != 1
    ensures Digits(Octets(digits, 0, 0).value, 0, 0) == digits
    decreases |digits|
  {
    if digits != [] {
      DigitsAfterOne(digits[1..], digits[0]);
      assert digits == [digits[0]] + digits[1..];
    }
  }

  /** The decoder holds a whole digit. */
  lemma {:induction false} DigitsAfterOne(digits: seq<Digit>, q: Digit)
    requires Octets(digits, q, 6).Some? && |digits| % 4 != 0
    ensures Digits(Octets(digits, q, 6).value, 0, 0) == [q] + digits
    decreases |digits|
  {
    var d := digits[0];
    assert (q * 64 + d) % 16 == d % 16;
    DigitsAfterTwo(digits[1..], d % 16, d / 16);
    StepAfterOne(digits, q);
  }

  /** The decoder holds the trailing four bits of a digit, the encoder its leading two. */
  lemma {:induction false} DigitsAfterTwo(digits: seq<Digit>, q: nat, r: nat)
    requires q < 16 && r < 4 && Octets(digits, q, 4).Some? && |digits| % 4 != 3
    ensures Digits(Octets(digits, q, 4).value, r, 2) == [r * 16 + q] + digits
    decreases |digits|
  {
    if digits == [] {
      assert [r * 16 + q] + digits == [r * 16];
    } else {
      var d := digits[0];
      assert (q * 64 + d) % 4 == d % 4;
      DigitsAfterThree(digits[1..], d % 4, d / 4);
      StepAfterTwo(digits, q, r);
    }
  }

  /** The decoder holds the trailing two bits of a digit, the encoder its leading four. */
  lemma {:induction false} DigitsAfterThree(digits: seq<Digit>, q: nat, r: nat)
    requires q < 4 && r < 16 && Octets(digits, q, 2).Some? && |digits| % 4 != 2
    ensures Digits(Octets(digits, q, 2).value, r, 4) == [r * 4 + q] + digits
    decreases |digits|
  {
    if digits == [] {
      assert [r * 4 + q] + digits == [r * 4];
    } else {
      DigitsOfOctets(digits[1..]);
      StepAfterThree(digits, q, r);
    }
  }

  lemma {:induction false} DigitsLength(bytes: seq<Byte>, r: nat, k: nat)
    requires (k == 0 && r == 0) || (k == 2 && r < 4) || (k == 4 && r < 16)
    ensures |Digits(bytes, r, k)| == (8 * |bytes| + k + 5) / 6
  {
    if bytes != [] {
      var x := r * 256 + bytes[0];
      if k == 0 { DigitsLength(bytes[1..], x % 4, 2); }
      else if k == 2 { DigitsLength(bytes[1..], x % 16, 4); }
      else { DigitsLength(bytes[1..], 0, 0); }
    }
  }

  // ----- text -----

  function Text(digits: seq<Digit>): string {
    seq(|digits|, i requires 0 <= i < |digits| => UrlChar(digits[i]))
  }

  predicate Alphabetic(s: string) {
    forall i | 0 <= i < |s| :: s[i] != '+' && s[i] != '/' && s[i] != '=' && Base64Value(s[i]) >= 0
  }

  function Values(s: string): seq<Digit>
    requires Alphabetic(s)
  {
    seq(|s|, i requires 0 <= i < |s| => AlphabetIsOneToOne(0, s[i]); Base64Value(s[i]))
  }

  lemma TextValues(digits: seq<Digit>)
    ensures Alphabetic(Text(digits)) && Values(Text(digits)) == digits
  {
    forall i | 0 <= i < |digits|
      ensures Base64Value(Text(digits)[i]) == digits[i]
      ensures Text(digits)[i] != '+' && Text(digits)[i] != '/' && Text(digits)[i] != '='
    {
      AlphabetIsOneToOne(digits[i], 'A');
    }
  }

  lemma ValuesText(s: string)
    requires Alphabetic(s)
    ensures Text(Values(s)) == s
  {
    forall i | 0 <= i < |s| ensures Text(Values(s))[i] == s[i] {
      AlphabetIsOneToOne(0, s[i]);
    }
  }

  /** The encoding, and the strict decoding, as functions of the whole input. */
  function Encoded(bytes: seq<Byte>): string {
    Text(Digits(bytes, 0, 0))
  }

  function Decoded(s: string): Option<seq<Byte>> {
    if s == "" || |s| > MAX_ENCODED || |s| % 4 == 1 || !Alphabetic(s) then None
    else Octets(Values(s), 0, 0)
  }

  // ----- the two loops -----

  lemma Remainder1024(n: int, a: int, c: nat)
    requires n == 1024 * a + c && c < 1024
    ensures n % 1024 == c
  {
  }

  lemma Remainder256(n: int, a: int, c: nat)
    requires n == 256 * a + c && c < 256
    ensures n % 256 == c
  {
  }

  lemma Remainder64(n: int, a: int, c: nat)
    requires n == 64 * a + c && c < 64
    ensures n % 64 == c && n / 64 == a
  {
  }

  lemma Remainder16(n: int, a: int, c: nat)
    requires n == 16 * a + c && c < 16
    ensures n % 16 == c
  {
  }

  lemma Remainder4(n: int, a: int, c: nat)
    requires n == 4 * a + c && c < 4
    ensures n % 4 == c
  {
  }

  lemma Remainder4096(n: int, a: int, c: nat)
    requires n == 4096 * a + c && c < 4096
    ensures n % 4096 == c && n % 1024 == c % 1024 && n % 256 == c % 256 && n % 64 == c % 64
  {
    Remainder1024(n, 4 * a + c / 1024, c % 1024);
    Remainder256(n, 16 * a + c / 256, c % 256);
    Remainder64(n, 64 * a + c / 64, c % 64);
  }

  lemma WrappedByte(acc: nat) returns (t: nat)
    ensures (acc * 256) % WORD == 256 * (acc - 0x100_0000 * t) <= WORD - 256
  {
    var y := acc * 256;
    t := y / WORD;
    assert y % WORD == y - WORD * t;
    assert y % WORD == 256 * (acc - 0x100_0000 * t);
  }

  /** A wrapping shift by eight loses only bits that have been emitted. */
  lemma ShiftByte(acc: nat, b: Byte)
    ensures var x := (acc * 256) % WORD + b;
            var c := (acc % 16) * 256 + b;
            x < WORD && x % 4096 == c && x % 1024 == c % 1024 && x % 256 == b
  {
    var t := WrappedByte(acc);
    var c := (acc % 16) * 256 + b;
    assert acc * 256 == 4096 * (acc / 16) + (acc % 16) * 256;
    Remainder4096((acc * 256) % WORD + b, acc / 16 - 0x10_0000 * t, c);
    Remainder256(c, acc % 16, b);
  }

  /** Emits six bits at a time while six are there. */
  method EmitDigits(acc: nat, k: nat) returns (digits: seq<Digit>, bits: nat)
    requires k == 0 || k == 2 || k == 4
    ensures bits == if k == 4 then 0 else k + 2
    ensures digits == if k == 0 then [(acc / 4) % 64] else if k == 2 then [(acc / 16) % 64]
                      else [(acc / 64) % 64, acc % 64]
  {
    digits, bits := [], k + 8;
    while bits >= 6
      invariant bits == k + 8 || bits == k + 2 || (k == 4 && bits == 0)
      invariant bits == k + 8 ==> digits == []
      invariant bits == k + 2 ==> digits == [(acc / Pow2(k + 2)) % 64]
      invariant k == 4 && bits == 0 ==> digits == [(acc / 64) % 64, acc % 64]
      decreases bits
    {
      bits := bits - 6;
      digits := digits + [(acc / Pow2(bits)) % 64];
    }
  }

  lemma EmitFromEmpty(x: nat, b: Byte)
    requires x % 256 == b
    ensures (x / 4) % 64 == b / 4 && x % 4 == b % 4
  {
    var h := x / 256;
    assert x == 256 * h + b;
    assert x / 4 == 64 * h + b / 4;
  }

  lemma EmitFromTwo(x: nat, c: nat)
    requires c < 1024 && x % 1024 == c
    ensures (x / 16) % 64 == c / 16 && x % 16 == c % 16
  {
    var h := x / 1024;
    assert x == 1024 * h + c;
    assert x / 16 == 64 * h + c / 16;
  }

  lemma EmitFromFour(x: nat, c: nat)
    requires c < 4096 && x % 4096 == c
    ensures (x / 64) % 64 == c / 64 && x % 64 == c % 64
  {
    var h := x / 4096;
    assert x == 4096 * h + c;
    assert x / 64 == 64 * h + c / 64;
    assert x == 64 * (64 * h + c / 64) + c % 64;
  }

  predicate Pending(acc: nat, r: nat, k: nat) {
    (k == 0 && r == 0) || (k == 2 && r == acc % 4) || (k == 4 && r == acc % 16)
  }

  predicate Ready(r: nat, k: nat) {
    (k == 0 && r == 0) || (k == 2 && r < 4) || (k == 4 && r < 16)
  }

  /** What one byte adds to the digits and leaves pending. */
  predicate Adds(b: Byte, r: nat, k: nat, more: seq<Digit>, r': nat, k': nat) {
    var x := r * 256 + b;
    if k == 0 then more == [x / 4] && r' == x % 4 && k' == 2
    else if k == 2 then more == [x / 16] && r' == x % 16 && k' == 4
    else more == [x / 64, x % 64] && r' == 0 && k' == 0
  }

  lemma AddsDigits(b: Byte, rest: seq<Byte>, r: nat, k: nat, more: seq<Digit>, r': nat, k': nat)
    requires Ready(r, k) && Ready(r', k') && Adds(b, r, k, more, r', k')
    ensures Digits([b] + rest, r, k) == more + Digits(rest, r', k')
  {
    assert ([b] + rest)[1..] == rest;
  }

  /** One byte of the encoder's loop. */
  method EncodeByte(acc: nat, b: Byte, k: nat, ghost r: nat)
      returns (acc': nat, more: seq<Digit>, k': nat, ghost r': nat)
    requires Pending(acc, r, k)
    ensures acc' < WORD && Pending(acc', r', k') && Adds(b, r, k, more, r', k')
  {
    acc' := (acc * 256) % WORD + b;
    ShiftByte(acc, b);
    more, k' := EmitDigits(acc', k);
    if k == 0 {
      EmitFromEmpty(acc', b);
      r' := b % 4;
    } else if k == 2 {
      LowBits4(acc, b);
      EmitFromTwo(acc', r * 256 + b);
      r' := (r * 256 + b) % 16;
    } else {
      EmitFromFour(acc', r * 256 + b);
      r' := 0;
    }
  }

  lemma LowBits4(acc: nat, b: Byte)
    ensures ((acc % 16) * 256 + b) % 1024 == (acc % 4) * 256 + b
  {
    var low := acc % 16;
    LowTwoBits(acc);
    Remainder1024(low * 256 + b, low / 4, (low % 4) * 256 + b);
  }

  lemma LowTwoBits(acc: nat)
    ensures (acc % 16) % 4 == acc % 4
  {
    var h, low := acc / 16, acc % 16;
    var m, c := low / 4, low % 4;
    Remainder4(acc, 4 * h + m, c);
  }

  /** The digits so far, and the bytes still to come with the pending bits, make up the encoding. */
  ghost predicate EncodedSoFar(value: seq<Byte>, i: nat, digits: seq<Digit>, r: nat, k: nat)
    requires i <= |value| && Ready(r, k)
  {
    Digits(value, 0, 0) == digits + Digits(value[i..], r, k)
  }

  lemma EncodedNext(
      value: seq<Byte>, i: nat, digits: seq<Digit>, r: nat, k: nat, more: seq<Digit>, r': nat, k': nat)
    requires i < |value| && Ready(r, k) && Ready(r', k') && EncodedSoFar(value, i, digits, r, k)
    requires Adds(value[i], r, k, more, r', k')
    ensures EncodedSoFar(value, i + 1, digits + more, r', k')
  {
    assert value[i..] == [value[i]] + value[i + 1..];
    AddsDigits(value[i], value[i + 1..], r, k, more, r', k');
  }

  lemma EncodedAtTheEnd(value: seq<Byte>, digits: seq<Digit>, r: nat, k: nat)
    requires Ready(r, k) && EncodedSoFar(value, |value|, digits, r, k)
    ensures Digits(value, 0, 0) == digits + (if k == 0 then [] else if k == 2 then [r * 16] else [r * 4])
  {
    assert value[|value|..] == [];
  }

  method EncodeBase64Url(value: seq<Byte>) returns (encoded: string)
    ensures encoded == Encoded(value)
  {
    var digits: seq<Digit> := [];
    var accumulator: nat := 0;
    var bits: nat := 0;
    ghost var r: nat := 0;
    assert value[0..] == value;
    for i := 0 to |value|
      invariant Pending(accumulator, r, bits) && accumulator < WORD
      invariant EncodedSoFar(value, i, digits, r, bits)
    {
      var more: seq<Digit>;
      ghost var k, before := bits, r;
      accumulator, more, bits, r := EncodeByte(accumulator, value[i], bits, r);
      EncodedNext(value, i, digits, before, k, more, r, bits);
      digits := digits + more;
    }
    EncodedAtTheEnd(value, digits, r, bits);
    if bits != 0 {
      LastDigit(accumulator, bits);
      digits := digits + [((accumulator * Pow2(6 - bits)) % WORD) % 64];
    }
    encoded := Text(digits);
  }

  lemma LastDigit(acc: nat, k: nat)
    requires k == 2 || k == 4
    ensures k == 2 ==> ((acc * 16) % WORD) % 64 == (acc % 4) * 16
    ensures k == 4 ==> ((acc * 4) % WORD) % 64 == (acc % 16) * 4
  {
    if k == 2 {
      Wrapped64(acc * 16, acc / 4, (acc % 4) * 16);
    } else {
      Wrapped64(acc * 4, acc / 16, (acc % 16) * 4);
    }
  }

  lemma Wrapped64(y: nat, a: nat, c: nat)
    requires y == 64 * a + c && c < 64
    ensures (y % WORD) % 64 == c
  {
    var t := y / WORD;
    assert y % WORD == y - WORD * t;
    Remainder64(y % WORD, a - 0x400_0000 * t, c);
  }

  // ----- decoding -----

  lemma ShiftDigit(acc: nat, d: Digit)
    ensures var x := (acc * 64) % WORD + d;
            var c := (acc % 64) * 64 + d;
            x < WORD && x % 4096 == c && x % 1024 == c % 1024 && x % 256 == c % 256 && x % 64 == d
  {
    var y := acc * 64;
    var x := y % WORD + d;
    var t := y / WORD;
    assert y % WORD == y - WORD * t;
    assert y == 4096 * (acc / 64) + (acc % 64) * 64;
    Remainder4096(x, acc / 64 - 0x10_0000 * t, (acc % 64) * 64 + d);
    assert x < WORD by {
      assert y % WORD == 64 * (acc - 0x400_0000 * t);
    }
  }

  predicate Waiting(acc: nat, q: nat, k: nat) {
    (k == 0 && q == 0) || (k == 2 && q == acc % 4) || (k == 4 && q == acc % 16) || (k == 6 && q == acc % 64)
  }

  predicate Partial(q: nat, k: nat) {
    (k == 0 && q == 0) || (k == 2 && q < 4) || (k == 4 && q < 16) || (k == 6 && q < 64)
  }

  /** What one digit adds to the bytes and leaves pending. */
  predicate Yields(d: Digit, q: nat, k: nat, more: seq<Byte>, q': nat, k': nat) {
    var x := q * 64 + d;
    if k == 0 then more == [] && q' == x && k' == 6
    else if k == 6 then more == [x / 16] && q' == x % 16 && k' == 4
    else if k == 4 then more == [x / 4] && q' == x % 4 && k' == 2
    else more == [x] && q' == 0 && k' == 0
  }

  function Prepend(bytes: seq<Byte>, rest: Option<seq<Byte>>): Option<seq<Byte>> {
    if rest.None? then None else Some(bytes + rest.value)
  }

  lemma PrependTwice(a: seq<Byte>, b: seq<Byte>, rest: Option<seq<Byte>>)
    ensures Prepend(a, Prepend(b, rest)) == Prepend(a + b, rest)
  {
    if rest.Some? { assert a + (b + rest.value) == (a + b) + rest.value; }
  }

  lemma PrependNothing(rest: Option<seq<Byte>>)
    ensures Prepend([], rest) == rest
  {
    if rest.Some? { assert [] + rest.value == rest.value; }
  }

  lemma YieldsOctets(d: Digit, rest: seq<Digit>, q: nat, k: nat, more: seq<Byte>, q': nat, k': nat)
    requires Partial(q, k) && Partial(q', k') && Yields(d, q, k, more, q', k')
    ensures Octets([d] + rest, q, k) == Prepend(more, Octets(rest, q', k'))
  {
    assert ([d] + rest)[1..] == rest;
    if k == 0 && Octets(rest, q', 6).Some? {
      assert [] + Octets(rest, q', 6).value == Octets(rest, q', 6).value;
    }
  }

  /** One digit of the decoder's loop. */
  method DecodeDigit(acc: nat, d: Digit, k: nat, ghost q: nat)
      returns (acc': nat, more: seq<Byte>, k': nat, ghost q': nat)
    requires Waiting(acc, q, k)
    ensures acc' < WORD && Waiting(acc', q', k') && Yields(d, q, k, more, q', k')
  {
    acc' := (acc * 64) % WORD + d;
    ShiftDigit(acc, d);
    k' := k + 6;
    more := [];
    if k' >= 8 {
      k' := k' - 8;
      more := [(acc' / Pow2(k')) % 256];
    }
    ghost var x := q * 64 + d;
    if k == 0 {
      q' := d;
    } else if k == 6 {
      q' := x % 16;
      OctetFromSix(acc', x);
    } else if k == 4 {
      q' := x % 4;
      LowBits6(acc, d);
      OctetFromFour(acc', x);
    } else {
      q' := 0;
      LowBits6(acc, d);
    }
  }

  lemma LowBits6(acc: nat, d: Digit)
    ensures ((acc % 64) * 64 + d) % 1024 == (acc % 16) * 64 + d
    ensures ((acc % 64) * 64 + d) % 256 == (acc % 4) * 64 + d
  {
    NestedRemainders(acc);
    var low := acc % 64;
    Remainder1024(low * 64 + d, low / 16, (low % 16) * 64 + d);
    Remainder256(low * 64 + d, low / 4, (low % 4) * 64 + d);
  }

  lemma NestedRemainders(acc: nat)
    ensures (acc % 64) % 16 == acc % 16 && (acc % 64) % 4 == acc % 4
  {
    var h, low := acc / 64, acc % 64;
    assert acc == 64 * h + low;
    Remainder16(acc, 4 * h + low / 16, low % 16);
    Remainder4(acc, 16 * h + low / 4, low % 4);
  }

  lemma OctetFromSix(x: nat, c: nat)
    requires c < 4096 && x % 4096 == c
    ensures (x / 16) % 256 == c / 16 && x % 16 == c % 16
  {
    var h := x / 4096;
    assert x == 4096 * h + c;
    assert x / 16 == 256 * h + c / 16;
    Remainder256(x / 16, h, c / 16);
  }

  lemma OctetFromFour(x: nat, c: nat)
    requires c < 1024 && x % 1024 == c
    ensures (x / 4) % 256 == c / 4 && x % 4 == c % 4
  {
    var h := x / 1024;
    assert x == 1024 * h + c;
    assert x / 4 == 256 * h + c / 4;
    Remainder256(x / 4, h, c / 4);
  }

  /** The bytes so far, and what the digits still to come yield, make up the decoding. */
  ghost predicate DecodedSoFar(digits: seq<Digit>, i: nat, bytes: seq<Byte>, q: nat, k: nat)
    requires i <= |digits| && Partial(q, k)
  {
    Octets(digits, 0, 0) == Prepend(bytes, Octets(digits[i..], q, k))
  }

  lemma DecodedNext(
      digits: seq<Digit>, i: nat, bytes: seq<Byte>, q: nat, k: nat, more: seq<Byte>, q': nat, k': nat)
    requires i < |digits| && Partial(q, k) && Partial(q', k') && DecodedSoFar(digits, i, bytes, q, k)
    requires Yields(digits[i], q, k, more, q', k')
    ensures DecodedSoFar(digits, i + 1, bytes + more, q', k')
  {
    assert digits[i..] == [digits[i]] + digits[i + 1..];
    YieldsOctets(digits[i], digits[i + 1..], q, k, more, q', k');
    PrependTwice(bytes, more, Octets(digits[i + 1..], q', k'));
  }

  lemma DecodedAtTheEnd(digits: seq<Digit>, bytes: seq<Byte>, q: nat, k: nat)
    requires Partial(q, k) && DecodedSoFar(digits, |digits|, bytes, q, k)
    ensures Octets(digits, 0, 0) == if q == 0 then Some(bytes) else None
  {
    assert digits[|digits|..] == [];
    assert bytes + [] == bytes;
  }

  /** The decoder's loop and its check of the pad bits, on the values of the characters. */
  method DecodeDigits(digits: seq<Digit>) returns (decoded: Option<seq<Byte>>)
    ensures decoded == Octets(digits, 0, 0)
  {
    var bytes: seq<Byte> := [];
    var accumulator: nat := 0;
    var bits: nat := 0;
    ghost var q: nat := 0;
    assert digits[0..] == digits;
    PrependNothing(Octets(digits, 0, 0));
    for i := 0 to |digits|
      invariant Waiting(accumulator, q, bits) && accumulator < WORD
      invariant DecodedSoFar(digits, i, bytes, q, bits)
    {
      var more: seq<Byte>;
      ghost var before, k := q, bits;
      accumulator, more, bits, q := DecodeDigit(accumulator, digits[i], bits, q);
      DecodedNext(digits, i, bytes, before, k, more, q, bits);
      bytes := bytes + more;
    }
    DecodedAtTheEnd(digits, bytes, q, bits);
    if bits != 0 && accumulator % Pow2(bits) != 0 { return None; }
    return Some(bytes);
  }

  /** The strict decoder: length and alphabet first, pad bits last. Every refusal is the same error, so
      a character outside the alphabet may as well be found before the loop. */
  method DecodeBase64Url(value: string) returns (decoded: Option<seq<Byte>>)
    ensures decoded == Decoded(value)
  {
    if value == "" || |value| > MAX_ENCODED || |value| % 4 == 1 { return None; }
    if exists i | 0 <= i < |value| :: value[i] == '=' || value[i] == '+' || value[i] == '/' { return None; }
    if exists i | 0 <= i < |value| :: Base64Value(value[i]) < 0 { return None; }
    decoded := DecodeDigits(Values(value));
  }

  // ----- round trips -----

  /** Every byte string survives the round trip exactly when it is within the decoder's limits. */
  lemma EncodeThenDecode(bytes: seq<Byte>)
    ensures Decoded(Encoded(bytes)) == Some(bytes) <==> 0 < |bytes| <= MAX_DECODED
    ensures !(0 < |bytes| <= MAX_DECODED) ==> Decoded(Encoded(bytes)) == None
  {
    var digits := Digits(bytes, 0, 0);
    DigitsLength(bytes, 0, 0);
    TextValues(digits);
    OctetsOfDigits(bytes);
  }

  /** Every accepted text is the encoding of what it decodes to: no two texts decode alike. */
  lemma DecodeThenEncode(s: string)
    requires Decoded(s).Some?
    ensures Encoded(Decoded(s).value) == s
    ensures 0 < |Decoded(s).value| <= MAX_DECODED
  {
    DigitsOfOctets(Values(s));
    ValuesText(s);
    DigitsLength(Decoded(s).value, 0, 0);
  }
}
