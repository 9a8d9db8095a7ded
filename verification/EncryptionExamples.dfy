/** A cipher of the kind `FieldEncryption` assumes, and a name with more layers than are taken off. */
module EncryptionExamples {
  import opened Options
  import opened Strings
  import opened Base64
  import opened FieldEncryption

  predicate IsScalar(n: int) { 0 <= n < 0xD800 || 0xE000 <= n < 0x11_0000 }

  function Bytes(c: char): seq<Byte> {
    var n: int := c as int;
    var middle: int := n / 256 % 256;
    var low: int := n % 256;
    var high: int := n / 65536;
    [high, middle, low]
  }

  /** Three bytes a character. */
  function Spelled(text: string): seq<Byte> { if text == "" then [] else Bytes(text[0]) + Spelled(text[1..]) }

  function Unspelled(bytes: seq<Byte>): Option<string> {
    if bytes == [] then Some("")
    else if |bytes| < 3 then None
    else
      var n := bytes[0] as int * 65536 + bytes[1] as int * 256 + bytes[2] as int;
      var rest := Unspelled(bytes[3..]);
      if IsScalar(n) && rest.Some? then Some([n as char] + rest.value) else None
  }

  lemma CharRead(c: char)
    ensures var b := Bytes(c); b[0] as int * 65536 + b[1] as int * 256 + b[2] as int == c as int && IsScalar(c as int)
  {
  }

  lemma {:induction false} SpelledRead(text: string)
    ensures Unspelled(Spelled(text)) == Some(text)
  {
    if text != "" {
      CharRead(text[0]);
      SpelledRead(text[1..]);
      assert Spelled(text)[3..] == Spelled(text[1..]);
      assert [text[0]] + text[1..] == text;
    }
  }

  const ZEROS: seq<Byte> := seq(TAG_LENGTH, _ => 0)

  /** It hides nothing, but it is an inverse pair. */
  function PlainCipher(): Cipher {
    Cipher((text, iv) => Sealed(Spelled(text), ZEROS), (iv, ciphertext, tag) => Unspelled(ciphertext))
  }

  lemma PlainCipherInverts()
    ensures Inverse(PlainCipher())
  {
    forall text: string, iv: seq<Byte> ensures PlainCipher().open(iv, PlainCipher().seal(text, iv).ciphertext, ZEROS)
        == Some(text) {
      SpelledRead(text);
    }
  }

  /** A name under six layers of encryption is not read back. */
  lemma SixLayersStay()
    ensures exists k, name, ivs ::
              Inverse(k) && AllVectors(ivs) && !IsEncrypted(name) && Peel(k, Nested(k, name, ivs), 5) != name
  {
    PlainCipherInverts();
    var k, name, ivs: seq<seq<Byte>> := PlainCipher(), "Ana", seq(6, _ => seq(IV_LENGTH, _ => 0));
    SplitLast(name, ':');
    DisplayNameExactly(k, name, ivs);
    assert Peel(k, Nested(k, name, ivs), 5) != name;
  }
}
