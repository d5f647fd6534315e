/** UTF-8 and its strict decoding. */
module Utf8 {
  import opened LittleEndian
  import opened Options

  function EncodeChar(c: char): (s: seq<byte>)
    ensures 1 <= |s| <= 4
    ensures |s| == 1 <==> c as int < 0x80
    ensures c as int < 0x80 ==> s == [c as int]
  {
    var n := c as int;
    if n < 0x80 then [n]
    else if n < 0x800 then [0xC0 + n / 64, 0x80 + n % 64]
    else if n < 0x1_0000 then [0xE0 + n / 4096, 0x80 + n / 64 % 64, 0x80 + n % 64]
    else [0xF0 + n / 262144, 0x80 + n / 4096 % 64, 0x80 + n / 64 % 64, 0x80 + n % 64]
  }

  function Encode(s: string): (r: seq<byte>)
    ensures |r| >= |s|
    decreases |s|
  {
    if s == [] then [] else EncodeChar(s[0]) + Encode(s[1..])
  }

  function Scalar(n: int): char {
    if 0 <= n < 0xD800 || 0xE000 <= n < 0x11_0000 then n as char else '\0'
  }

  /** The six bits of a continuation byte. */
  function Rest(b: byte): int {
    var x: int := b;
    x - 0x80
  }

  /** The character the first bytes may stand for. */
  function Candidate(b: seq<byte>): char
    requires b != []
  {
    var b0: int := b[0];
    if b0 < 0xC0 then Scalar(b0)
    else if b0 < 0xE0 then if |b| < 2 then '\0' else Scalar(64 * (b0 - 0xC0) + Rest(b[1]))
    else if b0 < 0xF0 then if |b| < 3 then '\0' else Scalar(4096 * (b0 - 0xE0) + 64 * Rest(b[1]) + Rest(b[2]))
    else if |b| < 4 then '\0'
    else Scalar(262144 * (b0 - 0xF0) + 4096 * Rest(b[1]) + 64 * Rest(b[2]) + Rest(b[3]))
  }

  /** The string some bytes encode; none when they are not what a string encodes to. */
  function Decode(b: seq<byte>): Option<string>
    decreases |b|
  {
    if b == [] then Some([])
    else
      var c := Candidate(b);
      var e := EncodeChar(c);
      if |e| > |b| || b[..|e|] != e then None
      else
        var rest := Decode(b[|e|..]);
        if rest.None? then None else Some([c] + rest.value)
  }

  lemma OneByte(c: char, rest: seq<byte>)
    requires c as int < 0x80
    ensures Candidate(EncodeChar(c) + rest) == c
  {
  }

  lemma TwoBytes(c: char, rest: seq<byte>)
    requires 0x80 <= c as int < 0x800
    ensures Candidate(EncodeChar(c) + rest) == c
  {
    var n, b := c as int, EncodeChar(c) + rest;
    assert Rest(b[1]) == n % 64;
    assert n == 64 * (n / 64) + n % 64;
  }

  lemma ThreeBytes(c: char, rest: seq<byte>)
    requires 0x800 <= c as int < 0x1_0000
    ensures Candidate(EncodeChar(c) + rest) == c
  {
    var n, b := c as int, EncodeChar(c) + rest;
    assert Rest(b[1]) == n / 64 % 64 && Rest(b[2]) == n % 64;
    assert n == 4096 * (n / 4096) + 64 * (n / 64 % 64) + n % 64;
  }

  lemma Sextets(n: nat)
    ensures n == 262144 * (n / 262144) + 4096 * (n / 4096 % 64) + 64 * (n / 64 % 64) + n % 64
  {
    var p, q, r := n / 64, n / 4096, n / 262144;
    assert n == 64 * p + n % 64 && p == 64 * q + p % 64 && q == 64 * r + q % 64;
  }

  lemma FourBytes(c: char, rest: seq<byte>)
    requires 0x1_0000 <= c as int
    ensures Candidate(EncodeChar(c) + rest) == c
  {
    var n, b := c as int, EncodeChar(c) + rest;
    assert Rest(b[1]) == n / 4096 % 64 && Rest(b[2]) == n / 64 % 64 && Rest(b[3]) == n % 64;
    Sextets(n);
  }

  lemma CandidateOfEncoded(c: char, rest: seq<byte>)
    ensures Candidate(EncodeChar(c) + rest) == c
  {
    hide EncodeChar, Candidate;
    if c as int < 0x80 {
      OneByte(c, rest);
    } else if c as int < 0x800 {
      TwoBytes(c, rest);
    } else if c as int < 0x1_0000 {
      ThreeBytes(c, rest);
    } else {
      FourBytes(c, rest);
    }
  }

  lemma {:induction false} DecodesOwn(s: string)
    ensures Decode(Encode(s)) == Some(s)
    decreases |s|
  {
    if s != [] {
      var e, rest := EncodeChar(s[0]), Encode(s[1..]);
      CandidateOfEncoded(s[0], rest);
      hide EncodeChar, Candidate;
      DecodesOwn(s[1..]);
      assert (e + rest)[..|e|] == e && (e + rest)[|e|..] == rest;
      assert [s[0]] + s[1..] == s;
    }
  }

  lemma EncodeCons(c: char, s: string)
    ensures Encode([c] + s) == EncodeChar(c) + Encode(s)
  {
    assert ([c] + s)[1..] == s;
    hide EncodeChar;
  }

  lemma DecodeStep(b: seq<byte>)
    requires b != [] && Decode(b).Some?
    ensures var c := Candidate(b);
            var n := |EncodeChar(c)|;
            && n <= |b| && b[..n] == EncodeChar(c)
            && Decode(b[n..]).Some? && Decode(b).value == [c] + Decode(b[n..]).value
  {
    hide EncodeChar, Candidate;
  }

  lemma Joined(b: seq<byte>, n: nat, front: seq<byte>, back: seq<byte>)
    requires n <= |b| && b[..n] == front && b[n..] == back
    ensures b == front + back
  {
  }

  lemma {:induction false} DecodedEncodes(b: seq<byte>)
    requires Decode(b).Some?
    ensures b == Encode(Decode(b).value)
    decreases |b|
  {
    if b != [] {
      DecodeStep(b);
      hide EncodeChar, Candidate, Decode, Encode;
      var c := Candidate(b);
      var n := |EncodeChar(c)|;
      DecodedEncodes(b[n..]);
      EncodeCons(c, Decode(b[n..]).value);
      Joined(b, n, EncodeChar(c), Encode(Decode(b[n..]).value));
    }
  }

  /** The bits of a continuation byte. */
  predicate Continues(b: byte, x: int) { 0 <= x < 64 && b as int == 0x80 + x }

  /** The bytes of a character: a lead byte for each of the four forms, then six bits of the number each. */
  lemma Forms(c: char, x0: int, x1: int, x2: int, x3: int)
    requires c as int == 262144 * x0 + 4096 * x1 + 64 * x2 + x3
    requires 0 <= x0 && 0 <= x1 < 64 && 0 <= x2 < 64 && 0 <= x3 < 64
    ensures var n, e := c as int, EncodeChar(c);
            && (n < 0x80 ==> e == [n])
            && (0x80 <= n < 0x800 ==> |e| == 2 && e[0] as int == 0xC0 + x2 && Continues(e[1], x3))
            && (0x800 <= n < 0x1_0000 ==>
                  |e| == 3 && e[0] as int == 0xE0 + x1 && Continues(e[1], x2) && Continues(e[2], x3))
            && (0x1_0000 <= n ==>
                  && |e| == 4 && e[0] as int == 0xF0 + x0
                  && Continues(e[1], x1) && Continues(e[2], x2) && Continues(e[3], x3))
  {
    var n := c as int;
    SextetsAre(n, x0, x1, x2, x3);
    if 0x80 <= n < 0x800 {
      assert n / 64 == x2;
    } else if 0x800 <= n < 0x1_0000 {
      assert n / 4096 == x1;
    }
  }

  lemma SextetsAre(n: nat, x0: int, x1: int, x2: int, x3: int)
    requires n == 262144 * x0 + 4096 * x1 + 64 * x2 + x3
    requires 0 <= x0 && 0 <= x1 < 64 && 0 <= x2 < 64 && 0 <= x3 < 64
    ensures n / 262144 == x0 && n / 4096 % 64 == x1 && n / 64 % 64 == x2 && n % 64 == x3
    ensures n / 64 == 4096 * x0 + 64 * x1 + x2 && n / 4096 == 64 * x0 + x1
  {
    var z := 64 * x0 + x1;
    var y := 64 * z + x2;
    Sextet(n, y, x3);
    Sextet(y, z, x2);
    Sextet(z, x0, x1);
    assert n == 4096 * z + (64 * x2 + x3) && 0 <= 64 * x2 + x3 < 4096;
    assert n == 262144 * x0 + (4096 * x1 + 64 * x2 + x3) && 0 <= 4096 * x1 + 64 * x2 + x3 < 262144;
  }

  lemma Sextet(n: int, q: int, r: int)
    requires n == 64 * q + r && 0 <= r < 64
    ensures n / 64 == q && n % 64 == r
  {
  }

  /** Bytes decode to a string if and only if they are its encoding. */
  lemma DecodeIff(b: seq<byte>, s: string)
    ensures Decode(b) == Some(s) <==> b == Encode(s)
  {
    DecodesOwn(s);
    if Decode(b).Some? {
      DecodedEncodes(b);
    }
  }
}
