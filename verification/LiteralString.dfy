/** Literal strings: 24-bit fingerprints of texts, and the table that leads back. */
module LiteralString {
  import opened CheckPoint
  import opened LiteralCsv

  // ------------------------------------------------------------------ fingerprints

  function Xor(x: nat, y: nat): nat
    decreases x + y
  {
    if x == 0 then y else if y == 0 then x
    else (if x % 2 != y % 2 then 1 else 0) + 2 * Xor(x / 2, y / 2)
  }

  /** One byte of 32-bit FNV-1a. */
  function Mixed(hash: u32, b: byte): u32 {
    Xor(hash, b) * 0x0100_0193 % 0x1_0000_0000
  }

  function Hash(text: seq<byte>): u32
    decreases |text|
  {
    if text == [] then 0x811c_9dc5 else Mixed(Hash(text[..|text| - 1]), text[|text| - 1])
  }

  /** The low 24 bits of the hash, never 0. */
  function Fingerprint(text: seq<byte>): u32 {
    if Hash(text) % 0x100_0000 == 0 then 1 else Hash(text) % 0x100_0000
  }

  /** `fingerprint`: the hashing loop. */
  method FingerprintOf(text: seq<byte>) returns (r: u32)
    ensures r == Fingerprint(text) && 0 < r <= 0x00ff_ffff
  {
    var hash: u32 := 0x811c_9dc5;
    var index := 0;
    while index < |text|
      invariant 0 <= index <= |text| && hash == Hash(text[..index])
    {
      assert text[..index + 1][..index] == text[..index];
      hash := Mixed(hash, text[index]);
      index := index + 1;
    }
    assert text[..|text|] == text;
    r := if hash % 0x100_0000 == 0 then 1 else hash % 0x100_0000;
  }

  /** The published hashes of the empty text and of the letter a. */
  lemma {:induction false} KnownHashes()
    ensures Hash([]) == 0x811c_9dc5 && Hash([97]) == 0xe40c_292c
  {
    LetterMixed(0x811c_9dc5, 97);
    HashOfOne(97);
  }

  lemma {:induction false} HashOfOne(b: byte)
    ensures Hash([]) == 0x811c_9dc5 && Hash([b]) == Mixed(0x811c_9dc5, b)
  {
    assert [b][..0] == [];
  }

  lemma {:induction false} XorStep(x: nat, y: nat, z: nat)
    requires x > 0 && y > 0 && Xor(x / 2, y / 2) == z
    ensures Xor(x, y) == 2 * z + if x % 2 != y % 2 then 1 else 0
  {
  }

  lemma {:induction false} LetterMixed(hash: u32, b: byte)
    requires hash == 0x811c_9dc5 && b == 97
    ensures Mixed(hash, b) == 0xe40c_292c
  {
    LetterXored(hash, b);
    LetterProduct(Xor(hash, b));
  }

  lemma LetterProduct(x: nat)
    requires x == 0x811c_9da4
    ensures x * 0x0100_0193 % 0x1_0000_0000 == 0xe40c_292c
  {
  }

  /** Bit by bit, from the highest bit of the letter down. */
  lemma {:induction false} LetterXored(hash: nat, b: nat)
    requires hash == 0x811c_9dc5 && b == 97
    ensures Xor(hash, b) == 0x811c_9da4
  {
    XorStep(hash / 64, b / 64, 0x102393b);
    XorStep(hash / 32, b / 32, 0x2047276);
    XorStep(hash / 16, b / 16, 0x408e4ed);
    XorStep(hash / 8, b / 8, 0x811c9da);
    XorStep(hash / 4, b / 4, 0x102393b4);
    XorStep(hash / 2, b / 2, 0x20472769);
    XorStep(hash, b, 0x408e4ed2);
  }

  // ------------------------------------------------------------------ the way back

  /** No entry before the `i`th has that fingerprint, and the `i`th does. */
  predicate FirstOf(entries: seq<Entry>, fingerprint: u32, i: nat)
    requires i < |entries|
  {
    entries[i].fingerprint == fingerprint && forall j :: 0 <= j < i ==> entries[j].fingerprint != fingerprint
  }

  /** `literal_string_text`: the first entry of that fingerprint, or no text. */
  method TextOf(entries: seq<Entry>, fingerprint: u32) returns (text: string)
    ensures (forall e :: e in entries ==> e.fingerprint != fingerprint) ==> text == ""
    ensures forall i :: 0 <= i < |entries| && FirstOf(entries, fingerprint, i) ==> text == entries[i].text
  {
    var i := 0;
    while i < |entries|
      invariant 0 <= i <= |entries| && forall j :: 0 <= j < i ==> entries[j].fingerprint != fingerprint
    {
      if entries[i].fingerprint == fingerprint {
        return entries[i].text;
      }
      i := i + 1;
    }
    text := "";
  }

  /** In a table read back, a text is found under its fingerprint by the program and the printer alike. */
  lemma {:induction false} BothFindTheText(es: seq<Entry>, e: Entry)
    requires OneLine(es) && Consistent(es) && e in es
    ensures ReadLiterals(Dump(es)).Loaded? && e.fingerprint in ReadLiterals(Dump(es)).literals
    ensures ReadLiterals(Dump(es)).literals[e.fingerprint] == e.text
    ensures forall i :: 0 <= i < |es| && es[i].fingerprint == e.fingerprint ==> es[i].text == e.text
  {
    OneLineDumpFailsOnlyOnCollision(es);
  }
}
