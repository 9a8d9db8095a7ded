/** Field encryption at rest: tokens `iv:ciphertext:tag` in base64, the customer fields written with
    them, and the display name read back through several layers of them. */
module FieldEncryption {
  import opened Options
  import opened Strings
  import opened Base64

  const IV_LENGTH := 12
  const TAG_LENGTH := 16

  datatype Sealed = Sealed(ciphertext: seq<Byte>, tag: seq<Byte>)

  /** AES-256-GCM under one key, on texts and their UTF-8 bytes: authenticated encryption with a given
      initialisation vector, and its inverse, which may fail. */
  datatype Cipher = Cipher(seal: (string, seq<Byte>) -> Sealed,
      open: (seq<Byte>, seq<Byte>, seq<Byte>) -> Option<string>)

  /** Sections 7.1 and 7.2 of NIST SP 800-38D: opening undoes sealing, tags have their fixed length, and
      a text that is not empty has a ciphertext that is not.  Nothing is asked of what was never sealed. */
  ghost predicate Inverse(k: Cipher) {
    forall text, iv | |iv| == IV_LENGTH ::
      var s := k.seal(text, iv);
      |s.tag| == TAG_LENGTH && (text != "" ==> s.ciphertext != []) && k.open(iv, s.ciphertext, s.tag) == Some(text)
  }

  /* ---------- tokens ---------- */

  function Token(iv: seq<Byte>, s: Sealed): string {
    Encode(iv) + [':'] + Encode(s.ciphertext) + [':'] + Encode(s.tag)
  }

  predicate IsEncrypted(value: string) {
    var parts := Split(value, ':');
    && value != "" && |parts| == 3 && parts[0] != "" && parts[1] != "" && parts[2] != ""
    && |Decode(parts[0])| == IV_LENGTH && |Decode(parts[2])| == TAG_LENGTH
  }

  function Encrypt(k: Cipher, text: string, iv: seq<Byte>): string {
    if text == "" then "" else Token(iv, k.seal(text, iv))
  }

  function Decrypt(k: Cipher, stored: string): string {
    if stored == "" || !IsEncrypted(stored) then stored
    else
      var parts := Split(stored, ':');
      match k.open(Decode(parts[0]), Decode(parts[1]), Decode(parts[2]))
      case Some(text) => text
      case None => stored
  }

  /** A token is recognised, and its three parts are read back. */
  lemma TokenReads(iv: seq<Byte>, s: Sealed)
    requires |iv| == IV_LENGTH && |s.tag| == TAG_LENGTH && s.ciphertext != []
    ensures IsEncrypted(Token(iv, s))
    ensures var parts := Split(Token(iv, s), ':');
      |parts| == 3 && Decode(parts[0]) == iv && Decode(parts[1]) == s.ciphertext && Decode(parts[2]) == s.tag
  {
    EncodePlain(iv);
    EncodePlain(s.ciphertext);
    EncodePlain(s.tag);
    SplitThree(Encode(iv), ':', Encode(s.ciphertext), Encode(s.tag));
    DecodeEncode(iv);
    DecodeEncode(s.ciphertext);
    DecodeEncode(s.tag);
  }

  /** Every text survives encryption, whatever it looks like. */
  lemma DecryptEncrypt(k: Cipher, text: string, iv: seq<Byte>)
    requires Inverse(k) && |iv| == IV_LENGTH
    ensures Decrypt(k, Encrypt(k, text, iv)) == text
    ensures text != "" ==> IsEncrypted(Encrypt(k, text, iv))
  {
    if text != "" { TokenReads(iv, k.seal(text, iv)); }
  }

  /* ---------- customer records ---------- */

  datatype Value = Str(s: string) | Other

  type Row = map<string, Value>

  const CUSTOMER_FIELDS := ["address", "barangay", "city", "region", "contact_number", "email", "id_presented"]

  /** The value written for field `f`. */
  function WrittenValue(k: Cipher, v: Value, iv: seq<Byte>): Value {
    if v.Str? && v.s != "" then Str(Encrypt(k, v.s, iv)) else v
  }

  function ReadValue(k: Cipher, v: Value): Value { if v.Str? then Str(Decrypt(k, v.s)) else v }

  /** A record with the fields of `done` encrypted, each with its own vector. */
  function Written(k: Cipher, row: Row, ivs: map<string, seq<Byte>>, done: seq<string>): Row
    requires forall f | f in done :: f in ivs
  {
    map f | f in row :: if f in done then WrittenValue(k, row[f], ivs[f]) else row[f]
  }

  /** A row as it is read. */
  function Read(k: Cipher, row: Row, done: seq<string>): Row {
    map f | f in row :: if f in done then ReadValue(k, row[f]) else row[f]
  }

  class Record {
    var fields: Row

    constructor (fields: Row)
      ensures this.fields == fields
    {
      this.fields := fields;
    }
  }

  /** applyCustomerFieldsForWrite: encrypts the customer fields of the record in place. */
  method ApplyCustomerFieldsForWrite(k: Cipher, record: Record, ivs: map<string, seq<Byte>>)
    requires forall f | f in CUSTOMER_FIELDS :: f in ivs
    modifies record
    ensures record.fields == Written(k, old(record.fields), ivs, CUSTOMER_FIELDS)
    ensures Inverse(k) && (forall f | f in CUSTOMER_FIELDS :: |ivs[f]| == IV_LENGTH) ==>
              FieldsSealed(k, old(record.fields), record.fields)
  {
    for i := 0 to |CUSTOMER_FIELDS|
      invariant forall f | f in CUSTOMER_FIELDS[..i] :: f in ivs
      invariant record.fields == Written(k, old(record.fields), ivs, CUSTOMER_FIELDS[..i])
    {
      var f := CUSTOMER_FIELDS[i];
      FieldsDistinct(i);
      assert CUSTOMER_FIELDS[..i + 1] == CUSTOMER_FIELDS[..i] + [f];
      if f !in record.fields { continue; }
      var v := record.fields[f];
      if !v.Str? { continue; }
      record.fields := record.fields[f := if v.s == "" then v else Str(Encrypt(k, v.s, ivs[f]))];
    }
    assert CUSTOMER_FIELDS[..|CUSTOMER_FIELDS|] == CUSTOMER_FIELDS;
    if Inverse(k) && forall f | f in CUSTOMER_FIELDS :: |ivs[f]| == IV_LENGTH {
      WriteSeals(k, old(record.fields), ivs);
    }
  }

  lemma FieldsDistinct(i: nat)
    requires i < |CUSTOMER_FIELDS|
    ensures CUSTOMER_FIELDS[i] !in CUSTOMER_FIELDS[..i]
  {
    forall j | 0 <= j < i ensures CUSTOMER_FIELDS[j] != CUSTOMER_FIELDS[i] {
      FieldsDiffer(j, i);
    }
  }

  lemma FieldsDiffer(i: nat, j: nat)
    requires i < j < |CUSTOMER_FIELDS|
    ensures CUSTOMER_FIELDS[i] != CUSTOMER_FIELDS[j]
  {
    assert |CUSTOMER_FIELDS[i]| != |CUSTOMER_FIELDS[j]|;
  }

  /** decryptCustomerRow: a decrypted copy. */
  method DecryptCustomerRow(k: Cipher, row: Row) returns (out: Row)
    ensures out == Read(k, row, CUSTOMER_FIELDS)
  {
    out := row;
    for i := 0 to |CUSTOMER_FIELDS|
      invariant out == Read(k, row, CUSTOMER_FIELDS[..i])
    {
      var f := CUSTOMER_FIELDS[i];
      FieldsDistinct(i);
      assert CUSTOMER_FIELDS[..i + 1] == CUSTOMER_FIELDS[..i] + [f];
      if f in out && out[f].Str? {
        out := out[f := Str(Decrypt(k, out[f].s))];
      }
    }
    assert CUSTOMER_FIELDS[..|CUSTOMER_FIELDS|] == CUSTOMER_FIELDS;
  }

  /** Reading undoes writing, for every record: missing, empty, non-text and token-shaped values too. */
  lemma ReadWritten(k: Cipher, row: Row, ivs: map<string, seq<Byte>>)
    requires Inverse(k) && forall f | f in CUSTOMER_FIELDS :: f in ivs && |ivs[f]| == IV_LENGTH
    ensures Read(k, Written(k, row, ivs, CUSTOMER_FIELDS), CUSTOMER_FIELDS) == row
  {
    forall f | f in row && f in CUSTOMER_FIELDS ensures ReadValue(k, WrittenValue(k, row[f], ivs[f])) == row[f] {
      if row[f].Str? { DecryptEncrypt(k, row[f].s, ivs[f]); }
    }
  }

  /** The customer fields that are encrypted, by name. */
  predicate IsCustomerField(f: string) {
    f == "address" || f == "barangay" || f == "city" || f == "region" || f == "contact_number" || f == "email"
        || f == "id_presented"
  }

  lemma CustomerFields(f: string)
    ensures f in CUSTOMER_FIELDS <==> IsCustomerField(f)
  {
    if IsCustomerField(f) {
      assert CUSTOMER_FIELDS[0] == "address" && CUSTOMER_FIELDS[1] == "barangay" && CUSTOMER_FIELDS[2] == "city";
      assert CUSTOMER_FIELDS[3] == "region" && CUSTOMER_FIELDS[4] == "contact_number";
      assert CUSTOMER_FIELDS[5] == "email" && CUSTOMER_FIELDS[6] == "id_presented";
    }
  }

  /** Each customer field that held a text, not empty, holds a token that opens to it; every other field is as it
      was. */
  ghost predicate FieldsSealed(k: Cipher, row: Row, row': Row) {
    && row'.Keys == row.Keys
    && forall f | f in row ::
         if IsCustomerField(f) && row[f].Str? && row[f].s != ""
         then row'[f].Str? && IsEncrypted(row'[f].s) && Decrypt(k, row'[f].s) == row[f].s
         else row'[f] == row[f]
  }

  lemma WriteSeals(k: Cipher, row: Row, ivs: map<string, seq<Byte>>)
    requires Inverse(k) && forall f | f in CUSTOMER_FIELDS :: f in ivs && |ivs[f]| == IV_LENGTH
    ensures FieldsSealed(k, row, Written(k, row, ivs, CUSTOMER_FIELDS))
  {
    forall f | f in row
      ensures var v := Written(k, row, ivs, CUSTOMER_FIELDS)[f];
        if IsCustomerField(f) && row[f].Str? && row[f].s != ""
        then v.Str? && IsEncrypted(v.s) && Decrypt(k, v.s) == row[f].s else v == row[f]
    {
      CustomerFields(f);
      if IsCustomerField(f) && row[f].Str? { DecryptEncrypt(k, row[f].s, ivs[f]); }
    }
  }

  /** What was never encrypted, and what does not open, is read as it is stored. */
  lemma PlainIsRead(k: Cipher, stored: string)
    ensures |Split(stored, ':')| != 3 ==> Decrypt(k, stored) == stored
    ensures Decrypt(k, stored) != stored ==>
              && |Split(stored, ':')| == 3
              && var parts := Split(stored, ':');
                 && |Decode(parts[0])| == 12 && |Decode(parts[2])| == 16
                 && k.open(Decode(parts[0]), Decode(parts[1]), Decode(parts[2])) == Some(Decrypt(k, stored))
  {
  }

  /* ---------- nested layers ---------- */

  /** Layers decryptUserDisplayName takes off at most. */
  const MAX_LAYERS := 5

  /** Takes off at most `n` layers; `recognised` and `inside` say what a layer is and what is inside. */
  function PeelWith(recognised: string -> bool, inside: string -> string, value: string, n: nat): string
    decreases n
  {
    if n == 0 || !recognised(value) || inside(value) == value then value
        else PeelWith(recognised, inside, inside(value), n - 1)
  }

  function Decryptor(k: Cipher): string -> string { value => Decrypt(k, value) }

  function Peel(k: Cipher, value: string, n: nat): string { PeelWith(IsEncrypted, Decryptor(k), value, n) }

  method DecryptUserDisplayName(k: Cipher, value: Option<string>) returns (current: Option<string>)
    ensures current == if value.None? then None else Some(Peel(k, value.value, 5))
  {
    current := value;
    if value.None? { return; }
    var i := 0;
    while i < MAX_LAYERS && IsEncrypted(current.value)
      invariant 0 <= i <= MAX_LAYERS && current.Some?
      invariant Peel(k, value.value, MAX_LAYERS) == Peel(k, current.value, MAX_LAYERS - i)
    {
      var next := Decrypt(k, current.value);
      if next == current.value { break; }
      current := Some(next);
      i := i + 1;
    }
  }

  /** `text` encrypted once with each vector, the first one innermost. */
  function Nested(k: Cipher, text: string, ivs: seq<seq<Byte>>): string {
    if ivs == [] then text else Encrypt(k, Nested(k, text, ivs[..|ivs| - 1]), ivs[|ivs| - 1])
  }

  predicate AllVectors(ivs: seq<seq<Byte>>) { forall i | 0 <= i < |ivs| :: |ivs[i]| == IV_LENGTH }

  lemma {:induction false} NestedLayer(k: Cipher, text: string, ivs: seq<seq<Byte>>)
    requires Inverse(k) && AllVectors(ivs) && text != "" && !IsEncrypted(text) && ivs != []
    ensures var inner := Nested(k, text, ivs[..|ivs| - 1]);
      inner != "" && IsEncrypted(Nested(k, text, ivs)) && Decrypt(k, Nested(k, text, ivs)) == inner
          && Nested(k, text, ivs) != inner
  {
    var n := |ivs| - 1;
    if n > 0 { NestedLayer(k, text, ivs[..n]); }
    DecryptEncrypt(k, Nested(k, text, ivs[..n]), ivs[n]);
  }

  /** The values from the plain name `vs[0]` outwards, each a layer around the one before it. */
  ghost predicate Layers(recognised: string -> bool, inside: string -> string, vs: seq<string>) {
    && vs != [] && !recognised(vs[0])
    && forall i | 0 < i < |vs| :: recognised(vs[i]) && inside(vs[i]) == vs[i - 1] && vs[i] != vs[i - 1]
  }

  /** Peeling takes off one layer after the other, until the name is plain or `n` layers are gone. */
  lemma {:induction false} PeelLayers(recognised: string -> bool, inside: string -> string, vs: seq<string>, top: nat,
                                      n: nat)
    requires Layers(recognised, inside, vs) && top < |vs|
    ensures PeelWith(recognised, inside, vs[top], n) == vs[if top <= n then 0 else top - n]
  {
    if top > 0 && n > 0 {
      PeelLayers(recognised, inside, vs, top - 1, n - 1);
    }
  }

  /** The layers put on by the vectors one after the other. */
  function LayersOf(k: Cipher, text: string, ivs: seq<seq<Byte>>): seq<string> {
    seq(|ivs| + 1, i requires 0 <= i <= |ivs| => Nested(k, text, ivs[..i]))
  }

  lemma NestedLayers(k: Cipher, text: string, ivs: seq<seq<Byte>>)
    requires Inverse(k) && AllVectors(ivs) && text != "" && !IsEncrypted(text)
    ensures Layers(IsEncrypted, Decryptor(k), LayersOf(k, text, ivs))
  {
    var vs := LayersOf(k, text, ivs);
    assert ivs[..0] == [];
    forall i | 0 < i < |vs| ensures IsEncrypted(vs[i]) && Decryptor(k)(vs[i]) == vs[i - 1] && vs[i] != vs[i - 1] {
      NestedLayer(k, text, ivs[..i]);
      assert ivs[..i][..i - 1] == ivs[..i - 1];
    }
  }

  /** Of `|ivs|` layers put on, `n` are taken off. */
  lemma PeelNested(k: Cipher, text: string, ivs: seq<seq<Byte>>, n: nat)
    requires Inverse(k) && AllVectors(ivs) && text != "" && !IsEncrypted(text)
    ensures Peel(k, Nested(k, text, ivs), n) == Nested(k, text, ivs[..if |ivs| <= n then 0 else |ivs| - n])
  {
    NestedLayers(k, text, ivs);
    assert ivs[..|ivs|] == ivs;
    PeelLayers(IsEncrypted, Decryptor(k), LayersOf(k, text, ivs), |ivs|, n);
  }

  /** The display name of a name encrypted several times is the name exactly when at most five layers
      were put on. */
  lemma DisplayNameExactly(k: Cipher, name: string, ivs: seq<seq<Byte>>)
    requires Inverse(k) && AllVectors(ivs) && !IsEncrypted(name)
    ensures Peel(k, Nested(k, name, ivs), 5) == name <==> name == "" || |ivs| <= 5
  {
    if name == "" {
      NestedEmpty(k, ivs);
    } else {
      PeelNested(k, name, ivs, MAX_LAYERS);
      if |ivs| > MAX_LAYERS { NestedLayer(k, name, ivs[..|ivs| - MAX_LAYERS]); }
    }
  }

  lemma {:induction false} NestedEmpty(k: Cipher, ivs: seq<seq<Byte>>)
    ensures Nested(k, "", ivs) == ""
  {
    if ivs != [] { NestedEmpty(k, ivs[..|ivs| - 1]); }
  }
}
