/** The cipher engine: `encrypt` and `decrypt` of one line
    (vigen.cc:9-10, 50-91). */
module Cipher {
  import opened Ascii

  /** The process-wide alphabet and its length `kLenAlphabet`. */
  const Alphabet: string := "abcdefghijklmnopqrstuvwxyz"
  const LenAlphabet: nat := |Alphabet|

  /** 2^64: `size_t` is a 64-bit unsigned type. */
  const SizeTModulus: int := 0x1_0000_0000_0000_0000

  lemma AlphabetOffsets()
    ensures LenAlphabet == 26
    ensures forall p :: 0 <= p < 26 ==> Alphabet[p] as int == 'a' as int + p
  {
  }

  /** The usual arithmetic conversion of an `int` to `size_t`: a negative
      value wraps around modulo 2^64. */
  function ToSizeT(v: int): (r: nat)
    ensures r < SizeTModulus
    ensures 0 <= v < SizeTModulus ==> r == v
    ensures -SizeTModulus <= v < 0 ==> r == v + SizeTModulus
  {
    v % SizeTModulus
  }

  /** `ch - letter_A`, an `int` that may be negative or exceed 25. */
  function Offset(c: char): int {
    c as int - 'a' as int
  }

  /** The alphabet position `encrypt` computes at vigen.cc:68. */
  function EncryptIndex(c: char, k: char): (p: nat)
    ensures p < LenAlphabet
  {
    ToSizeT(Offset(c) + Offset(k)) % LenAlphabet
  }

  /** The alphabet position `decrypt` computes at vigen.cc:86. */
  function DecryptIndex(c: char, k: char): (p: nat)
    ensures p < LenAlphabet
  {
    ToSizeT(Offset(c) - Offset(k) + LenAlphabet) % LenAlphabet
  }

  /** The loop of `encrypt` on an already lower-cased line and key, before
      the newline is appended. */
  function Enciphered(text: string, key: string): (r: string)
    requires |key| > 0
  {
    seq(|text|, i requires 0 <= i < |text| =>
      if !IsAlpha(text[i]) then text[i] else Alphabet[EncryptIndex(text[i], key[i % |key|])])
  }

  /** The string `encrypt(raw_text, key)` returns. */
  function Encrypted(rawText: string, key: string): string {
    if rawText == [] || key == [] then []
    else Enciphered(Lower(rawText), Lower(key)) + ['\n']
  }

  /** `decrypt` divides by the key length only when it meets a letter:
      with an empty key it is defined just for letter-free text. */
  predicate DecryptDefined(text: string, key: string) {
    |key| > 0 || NoAlpha(text)
  }

  /** The loop of `decrypt`, before the newline is appended. */
  function Deciphered(text: string, key: string): (r: string)
    requires DecryptDefined(text, key)
  {
    seq(|text|, i requires 0 <= i < |text| =>
      if !IsAlpha(text[i]) then text[i] else Alphabet[DecryptIndex(text[i], key[i % |key|])])
  }

  /** The string `decrypt(enc_text, key)` returns. */
  function Decrypted(encText: string, key: string): string
    requires DecryptDefined(encText, key)
  {
    Deciphered(encText, key) + ['\n']
  }

  /** `encrypt`: lower-cases the caller's line and key in place, then
      shifts every letter by the key letter at the same position. */
  method Encrypt(rawText: StringRef, key: StringRef) returns (encryptedText: string)
    modifies rawText, key
    ensures encryptedText == Encrypted(old(rawText.value), old(key.value))
    ensures old(rawText.value) == [] || old(key.value) == [] ==>
      rawText.value == old(rawText.value) && key.value == old(key.value)
    ensures old(rawText.value) != [] && old(key.value) != [] ==>
      rawText.value == Lower(old(rawText.value)) && key.value == Lower(old(key.value))
  {
    encryptedText := "";
    if |rawText.value| == 0 || |key.value| == 0 {
      return;
    }
    LowerIdempotent(old(rawText.value));
    LowerIdempotent(old(key.value));
    LowerInPlace(rawText);
    LowerInPlace(key);

    var keyLength := |key.value|;
    var len := |rawText.value|;
    var i := 0;
    while i < len
      invariant 0 <= i <= len == |rawText.value|
      invariant |encryptedText| == i
      invariant forall j :: 0 <= j < i ==>
        encryptedText[j] == Enciphered(rawText.value, key.value)[j]
    {
      var ch := rawText.value[i];
      if !IsAlpha(ch) {
        encryptedText := encryptedText + [ch];
      } else {
        var pos := ToSizeT(Offset(ch) + Offset(key.value[i % keyLength])) % LenAlphabet;
        encryptedText := encryptedText + [Alphabet[pos]];
      }
      i := i + 1;
    }
    encryptedText := encryptedText + ['\n'];
  }

  /** `decrypt`: takes both strings by const reference and shifts every
      letter back by the key letter at the same position. */
  method Decrypt(encText: string, key: string) returns (clearText: string)
    requires DecryptDefined(encText, key)
    ensures clearText == Decrypted(encText, key)
  {
    clearText := "";
    var keyLength := |key|;
    var len := |encText|;
    var i := 0;
    while i < len
      invariant 0 <= i <= len
      invariant |clearText| == i
      invariant forall j :: 0 <= j < i ==> clearText[j] == Deciphered(encText, key)[j]
    {
      var ch := encText[i];
      if !IsAlpha(ch) {
        clearText := clearText + [ch];
      } else {
        var pos := ToSizeT(Offset(ch) - Offset(key[i % keyLength]) + LenAlphabet) % LenAlphabet;
        clearText := clearText + [Alphabet[pos]];
      }
      i := i + 1;
    }
    clearText := clearText + ['\n'];
  }

  // ---------------------------------------------------------------------
  // Laws of the two transforms

  /** `encrypt` returns "" exactly when the line or the key is empty;
      otherwise one character per input character plus the final newline. */
  lemma {:induction false} EncryptedShape(rawText: string, key: string)
    ensures Encrypted(rawText, key) == [] <==> rawText == [] || key == []
    ensures rawText != [] && key != [] ==>
      |Encrypted(rawText, key)| == |rawText| + 1 &&
      Encrypted(rawText, key)[|rawText|] == '\n'
  {
  }

  /** `decrypt` always appends the newline, so an empty line gives "\n". */
  lemma {:induction false} DecryptedShape(encText: string, key: string)
    requires DecryptDefined(encText, key)
    ensures |Decrypted(encText, key)| == |encText| + 1
    ensures Decrypted(encText, key)[|encText|] == '\n'
    ensures encText == [] ==> Decrypted(encText, key) == "\n"
  {
  }

  /** Every non-letter is copied to the same index by both directions. */
  lemma {:induction false} NonLettersPassThrough(text: string, key: string, i: nat)
    requires i < |text| && !IsAlpha(text[i])
    ensures key != [] ==> Encrypted(text, key)[i] == text[i]
    ensures DecryptDefined(text, key) ==> Decrypted(text, key)[i] == text[i]
  {
    if key != [] {
      LowerLetters(text);
    }
  }

  /** A letter is encrypted to the lower-case letter shifted by the key
      letter at the same character position `i`, counting non-letters too;
      with a letter as key character this is the Vigenère shift modulo 26. */
  lemma {:induction false} EncryptedLetter(text: string, key: string, i: nat)
    requires i < |text| && IsAlpha(text[i]) && key != []
    ensures IsLower(Encrypted(text, key)[i])
    ensures IsAlpha(key[i % |key|]) ==>
      Offset(Encrypted(text, key)[i]) ==
        (Offset(ToLower(text[i])) + Offset(ToLower(key[i % |key|]))) % 26
  {
    AlphabetOffsets();
    LowerLetters(text);
    var c, k := ToLower(text[i]), ToLower(key[i % |key|]);
    assert Encrypted(text, key)[i] == Alphabet[EncryptIndex(c, k)];
    if IsAlpha(key[i % |key|]) {
      assert 0 <= Offset(c) + Offset(k) < 52;
    }
  }

  /** A letter is decrypted to a lower-case letter; for a lower-case letter
      under a lower-case key letter this is the inverse shift modulo 26. */
  lemma {:induction false} DecryptedLetter(text: string, key: string, i: nat)
    requires i < |text| && IsAlpha(text[i]) && key != []
    ensures IsLower(Decrypted(text, key)[i])
    ensures IsLower(text[i]) && IsLower(key[i % |key|]) ==>
      Offset(Decrypted(text, key)[i]) == (Offset(text[i]) - Offset(key[i % |key|])) % 26
  {
    AlphabetOffsets();
    var c, k := text[i], key[i % |key|];
    var p := DecryptIndex(c, k);
    assert Decrypted(text, key)[i] == Alphabet[p];
    assert Alphabet[p] as int == 'a' as int + p;
    if IsLower(c) && IsLower(k) {
      var v := Offset(c) - Offset(k) + 26;
      assert 0 < v < 52;
      assert ToSizeT(v) == v;
      assert p == v % 26;
      assert (Offset(c) - Offset(k)) % 26 == v % 26;
    }
  }

  /** The key is lower-cased on every call, so lower-casing it beforehand
      (as an earlier call does in place) changes nothing. */
  lemma {:induction false} EncryptedKeyCase(rawText: string, key: string)
    ensures Encrypted(rawText, Lower(key)) == Encrypted(rawText, key)
  {
    LowerIdempotent(key);
  }

  /** On lower-case letters the `size_t` conversion of vigen.cc:68 leaves
      the sum as it is. */
  lemma EncryptIndexOfLower(c: char, k: char)
    requires IsLower(c) && IsLower(k)
    ensures EncryptIndex(c, k) == (Offset(c) + Offset(k)) % 26
  {
    assert ToSizeT(Offset(c) + Offset(k)) == Offset(c) + Offset(k);
  }

  /** On lower-case letters the `size_t` conversion of vigen.cc:86 leaves
      the difference plus 26 as it is. */
  lemma DecryptIndexOfLower(c: char, k: char)
    requires IsLower(c) && IsLower(k)
    ensures DecryptIndex(c, k) == (Offset(c) - Offset(k) + 26) % 26
  {
    assert ToSizeT(Offset(c) - Offset(k) + 26) == Offset(c) - Offset(k) + 26;
  }

  /** One letter: the decrypt shift undoes the encrypt shift when both the
      letter and the key letter are lower-case. */
  lemma ShiftRoundTrip(c: char, k: char)
    requires IsLower(c) && IsLower(k)
    ensures Alphabet[DecryptIndex(Alphabet[EncryptIndex(c, k)], k)] == c
  {
    AlphabetOffsets();
    var a, b := Offset(c), Offset(k);
    var e := EncryptIndex(c, k);
    EncryptIndexOfLower(c, k);
    assert e == if a + b < 26 then a + b else a + b - 26;
    assert Offset(Alphabet[e]) == e;
    DecryptIndexOfLower(Alphabet[e], k);
    assert DecryptIndex(Alphabet[e], k) == a;
  }

  /** One letter, the other way: encrypting a decrypted lower-case letter
      gives it back. */
  lemma ShiftRoundTripReverse(c: char, k: char)
    requires IsLower(c) && IsLower(k)
    ensures Alphabet[EncryptIndex(Alphabet[DecryptIndex(c, k)], k)] == c
  {
    AlphabetOffsets();
    var a, b := Offset(c), Offset(k);
    var d := DecryptIndex(c, k);
    DecryptIndexOfLower(c, k);
    assert d == if a - b < 0 then a - b + 26 else a - b;
    assert Offset(Alphabet[d]) == d;
    EncryptIndexOfLower(Alphabet[d], k);
    assert EncryptIndex(Alphabet[d], k) == a;
  }

  /** Round trip: decrypting the encrypted line (without its newline) under
      the same all-lower-case key gives the line lower-cased; the original
      case is lost. */
  lemma {:induction false} RoundTrip(s: string, key: string)
    requires s != [] && key != [] && AllLower(key)
    ensures DecryptDefined(Encrypted(s, key)[..|s|], key)
    ensures Decrypted(Encrypted(s, key)[..|s|], key) == Lower(s) + "\n"
  {
    LowerIdempotent(key);
    LowerLetters(s);
    var low := Lower(s);
    var e := Encrypted(s, key)[..|s|];
    assert e == Enciphered(low, key);
    forall i | 0 <= i < |s|
      ensures Deciphered(e, key)[i] == low[i]
    {
      if IsAlpha(low[i]) {
        ShiftRoundTrip(low[i], key[i % |key|]);
        AlphabetOffsets();
      }
    }
  }

  /** Round trip the other way: encrypting a decrypted line whose letters
      are lower-case gives the line back. */
  lemma {:induction false} RoundTripReverse(t: string, key: string)
    requires t != [] && key != [] && AllLower(key)
    requires forall i :: 0 <= i < |t| && IsAlpha(t[i]) ==> IsLower(t[i])
    ensures Encrypted(Decrypted(t, key)[..|t|], key) == t + "\n"
  {
    LowerIdempotent(key);
    AlphabetOffsets();
    var d := Decrypted(t, key)[..|t|];
    assert d == Deciphered(t, key);
    assert Lower(d) == d;
    forall i | 0 <= i < |t|
      ensures Enciphered(d, key)[i] == t[i]
    {
      if IsAlpha(t[i]) {
        ShiftRoundTripReverse(t[i], key[i % |key|]);
      }
    }
  }

  // ---------------------------------------------------------------------
  // `decrypt` does not lower-case its key

  /** As written, `decrypt` uses the key as given while `encrypt` lower-cases
      it: under the key "B" the line "a" encrypts to "b", and "b" decrypts to
      "g", not back to "a". */
  lemma MixedCaseKeyBreaksRoundTrip()
    ensures Encrypted("a", "B") == "b\n"
    ensures Decrypted("b", "B") == "g\n"
    ensures Decrypted(Encrypted("a", "B")[..1], "B") != Lower("a") + "\n"
  {
    AlphabetOffsets();
    assert Lower("B") == "b";
    assert Enciphered("a", "b")[0] == Alphabet[1];
    assert Deciphered("b", "B")[0] == Alphabet[6];
    assert Encrypted("a", "B")[..1] == "b";
    assert Lower("a") == "a";
    assert ("g\n")[0] != ("a\n")[0];
  }

  /** `decrypt` with the key lower-cased first, as `encrypt` does. */
  function DecryptedFoldedKey(encText: string, key: string): string
    requires DecryptDefined(encText, key)
  {
    Decrypted(encText, Lower(key))
  }

  /** With the key folded, the round trip holds for every key of letters,
      whatever their case, which is every key `genKey` accepts. */
  lemma {:induction false} RoundTripFoldedKey(s: string, key: string)
    requires s != [] && key != [] && AllAlpha(key)
    ensures DecryptDefined(Encrypted(s, key)[..|s|], key)
    ensures DecryptedFoldedKey(Encrypted(s, key)[..|s|], key) == Lower(s) + "\n"
  {
    LowerLetters(key);
    EncryptedKeyCase(s, key);
    RoundTrip(s, Lower(key));
  }
}
