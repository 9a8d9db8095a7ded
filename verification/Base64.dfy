/** Base64, section 4 of RFC 4648, as the runtime writes and reads it. */
module Base64 {
  import opened Options

  type Byte = b: int | 0 <= b < 256
  type Sextet = n: int | 0 <= n < 64

  /** The alphabet of RFC 4648. */
  function Char64(n: int): char
    requires 0 <= n < 64
  {
    if n < 26 then 'A' + n as char
    else if n < 52 then 'a' + (n - 26) as char
    else if n < 62 then '0' + (n - 52) as char
    else if n == 62 then '+'
    else '/'
  }

  /** The reader also takes the URL alphabet, and skips every other character. */
  function Value64(c: char): Option<Sextet> {
    if 'A' <= c <= 'Z' then Some(c as int - 'A' as int)
    else if 'a' <= c <= 'z' then Some(c as int - 'a' as int + 26)
    else if '0' <= c <= '9' then Some(c as int - '0' as int + 52)
    else if c == '+' || c == '-' then Some(62)
    else if c == '/' || c == '_' then Some(63)
    else None
  }

  function EncodeTriple(a: Byte, b: Byte, c: Byte): string {
    [Char64(a / 4), Char64(a % 4 * 16 + b / 16), Char64(b % 16 * 4 + c / 64), Char64(c % 64)]
  }

  function EncodePair(a: Byte, b: Byte): string {
    [Char64(a / 4), Char64(a % 4 * 16 + b / 16), Char64(b % 16 * 4), '=']
  }

  function EncodeSingle(a: Byte): string { [Char64(a / 4), Char64(a % 4 * 16), '=', '='] }

  function Encode(b: seq<Byte>): string {
    if |b| >= 3 then EncodeTriple(b[0], b[1], b[2]) + Encode(b[3..])
    else if |b| == 2 then EncodePair(b[0], b[1])
    else if |b| == 1 then EncodeSingle(b[0])
    else ""
  }

  /** The values of the elements that have one. */
  function Kept<T, U>(f: T -> Option<U>, s: seq<T>): seq<U> {
    if s == [] then [] else (if f(s[0]).Some? then [f(s[0]).value] else []) + Kept(f, s[1..])
  }

  function Sextets(s: string): seq<Sextet> { Kept(Value64, s) }

  function First(x: Sextet, y: Sextet): Byte { (x as int) * 4 + y / 16 }
  function Second(y: Sextet, z: Sextet): Byte { (y as int) % 16 * 16 + z / 4 }
  function Third(z: Sextet, w: Sextet): Byte { (z as int) % 4 * 64 + w }

  /** Four sextets make three bytes; bits left over at the end are dropped. */
  function Bytes(x: seq<Sextet>): seq<Byte> {
    if |x| >= 4 then [First(x[0], x[1]), Second(x[1], x[2]), Third(x[2], x[3])] + Bytes(x[4..])
    else if |x| == 3 then [First(x[0], x[1]), Second(x[1], x[2])]
    else if |x| == 2 then [First(x[0], x[1])]
    else []
  }

  function Decode(s: string): seq<Byte> { Bytes(Sextets(s)) }

  lemma ValueOfChar(n: int)
    requires 0 <= n < 64
    ensures Value64(Char64(n)) == Some(n) && Char64(n) != ':'
  {
  }

  lemma {:induction false} KeptConcat<T, U>(f: T -> Option<U>, s: seq<T>, t: seq<T>)
    ensures Kept(f, s + t) == Kept(f, s) + Kept(f, t)
  {
    if s == [] {
      assert s + t == t;
    } else {
      var head := if f(s[0]).Some? then [f(s[0]).value] else [];
      KeptConcat(f, s[1..], t);
      assert (s + t)[1..] == s[1..] + t && (s + t)[0] == s[0];
      assert Kept(f, s + t) == head + Kept(f, s[1..] + t);
      assert head + (Kept(f, s[1..]) + Kept(f, t)) == (head + Kept(f, s[1..])) + Kept(f, t);
    }
  }

  lemma KeptOne<T, U>(f: T -> Option<U>, a: T)
    ensures Kept(f, [a]) == if f(a).Some? then [f(a).value] else []
  {
    assert [a][1..] == [];
  }

  lemma KeptFour<T, U>(f: T -> Option<U>, a: T, b: T, c: T, d: T)
    ensures Kept(f, [a, b, c, d]) == Kept(f, [a]) + Kept(f, [b]) + Kept(f, [c]) + Kept(f, [d])
  {
    assert [a, b, c, d] == [a] + [b] + [c] + [d];
    KeptConcat(f, [a] + [b] + [c], [d]);
    KeptConcat(f, [a] + [b], [c]);
    KeptConcat(f, [a], [b]);
  }

  lemma SextetOfChar(n: Sextet)
    ensures Sextets([Char64(n)]) == [n]
  {
    ValueOfChar(n);
    KeptOne(Value64, Char64(n));
  }

  lemma SextetOfPad()
    ensures Sextets(['=']) == []
  {
    KeptOne(Value64, '=');
  }

  /** Three bytes survive the trip through four sextets. */
  lemma TripleBack(a: Byte, b: Byte, c: Byte)
    ensures var x, y, z, w := a / 4, a % 4 * 16 + b / 16, b % 16 * 4 + c / 64, c % 64;
      0 <= x < 64 && 0 <= y < 64 && 0 <= z < 64 && 0 <= w < 64
      && First(x, y) == a && Second(y, z) == b && Third(z, w) == c
  {
  }

  lemma SextetsOfQuad(x: Sextet, y: Sextet, z: Sextet, w: Sextet, rest: string)
    ensures Sextets([Char64(x), Char64(y), Char64(z), Char64(w)] + rest) == [x, y, z, w] + Sextets(rest)
  {
    KeptConcat(Value64, [Char64(x), Char64(y), Char64(z), Char64(w)], rest);
    KeptFour(Value64, Char64(x), Char64(y), Char64(z), Char64(w));
    SextetOfChar(x);
    SextetOfChar(y);
    SextetOfChar(z);
    SextetOfChar(w);
  }

  lemma BytesOfQuad(x: Sextet, y: Sextet, z: Sextet, w: Sextet, rest: seq<Sextet>)
    ensures Bytes([x, y, z, w] + rest) == [First(x, y), Second(y, z), Third(z, w)] + Bytes(rest)
  {
    assert ([x, y, z, w] + rest)[4..] == rest;
  }

  lemma SextetsOfThree(x: Sextet, y: Sextet, z: Sextet)
    ensures Sextets([Char64(x), Char64(y), Char64(z), '=']) == [x, y, z]
  {
    KeptFour(Value64, Char64(x), Char64(y), Char64(z), '=');
    SextetOfChar(x);
    SextetOfChar(y);
    SextetOfChar(z);
    SextetOfPad();
  }

  lemma SextetsOfTwo(x: Sextet, y: Sextet)
    ensures Sextets([Char64(x), Char64(y), '=', '=']) == [x, y]
  {
    KeptFour(Value64, Char64(x), Char64(y), '=', '=');
    SextetOfChar(x);
    SextetOfChar(y);
    SextetOfPad();
  }

  lemma DecodeQuad(x: Sextet, y: Sextet, z: Sextet, w: Sextet, rest: string)
    ensures Decode([Char64(x), Char64(y), Char64(z), Char64(w)] + rest)
        == [First(x, y), Second(y, z), Third(z, w)] + Decode(rest)
  {
    SextetsOfQuad(x, y, z, w, rest);
    BytesOfQuad(x, y, z, w, Sextets(rest));
  }

  lemma DecodeTriple(a: Byte, b: Byte, c: Byte, rest: string)
    ensures Decode(EncodeTriple(a, b, c) + rest) == [a, b, c] + Decode(rest)
  {
    TripleBack(a, b, c);
    DecodeQuad(a / 4, a % 4 * 16 + b / 16, b % 16 * 4 + c / 64, c % 64, rest);
  }

  lemma DecodePair(a: Byte, b: Byte)
    ensures Decode(EncodePair(a, b)) == [a, b]
  {
    TripleBack(a, b, 0);
    SextetsOfThree(a / 4, a % 4 * 16 + b / 16, b % 16 * 4);
  }

  lemma DecodeSingle(a: Byte)
    ensures Decode(EncodeSingle(a)) == [a]
  {
    TripleBack(a, 0, 0);
    SextetsOfTwo(a / 4, a % 4 * 16);
  }

  /** What is written in base64 is read back, for all bytes. */
  lemma {:induction false} DecodeEncode(b: seq<Byte>)
    ensures Decode(Encode(b)) == b
  {
    if |b| >= 3 {
      DecodeEncode(b[3..]);
      DecodeTriple(b[0], b[1], b[2], Encode(b[3..]));
      assert b == [b[0], b[1], b[2]] + b[3..];
    } else if |b| == 2 {
      DecodePair(b[0], b[1]);
    } else if |b| == 1 {
      DecodeSingle(b[0]);
    }
  }

  /** Encoded text never contains the separator of tokens, and is empty only for no bytes. */
  lemma {:induction false} EncodePlain(b: seq<Byte>)
    ensures ':' !in Encode(b) && (Encode(b) == "" <==> b == [])
  {
    if |b| >= 3 {
      EncodePlain(b[3..]);
      assert Encode(b) == EncodeTriple(b[0], b[1], b[2]) + Encode(b[3..]);
    }
  }

  /** The alphabet of section 4 of RFC 4648: A to Z, a to z, 0 to 9, plus and slash, in this order. */
  lemma Alphabet(n: int)
    requires 0 <= n < 64
    ensures Char64(0) == 'A' && Char64(25) == 'Z' && Char64(26) == 'a' && Char64(51) == 'z'
    ensures Char64(52) == '0' && Char64(61) == '9' && Char64(62) == '+' && Char64(63) == '/'
    ensures n != 25 && n != 51 && n < 61 ==> Char64(n + 1) as int == Char64(n) as int + 1
  {
  }

  /** The test vectors of section 10 of RFC 4648. */
  lemma TestVectors()
    ensures Encode([]) == "" && Encode([0x66]) == "Zg==" && Encode([0x66, 0x6f]) == "Zm8="
    ensures Encode([0x66, 0x6f, 0x6f]) == "Zm9v" && Encode([0x66, 0x6f, 0x6f, 0x62]) == "Zm9vYg=="
  {
    var foo: seq<Byte> := [0x66, 0x6f, 0x6f];
    assert foo[3..] == [];
    assert [0x66 as Byte, 0x6f, 0x6f, 0x62][3..] == [0x62];
    assert Encode([0x62]) == "Yg==";
    assert "Zm9v" + "Yg==" == "Zm9vYg==";
  }
}
