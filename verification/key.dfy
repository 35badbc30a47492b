/** Key normalisation: `removeNotAlphabetChars` and `genKey`
    (vigen.cc:28-48). */
module KeyNormalizer {
  import opened Ascii
  import opened Wrappers

  /** The letters of `s`, in their original order: what
      `key.erase(std::remove_if(…, !isalpha), key.end())` leaves. */
  function Letters(s: string): (r: string)
    ensures |r| <= |s|
    ensures AllAlpha(r)
  {
    if s == [] then []
    else Letters(s[..|s| - 1]) + (if IsAlpha(s[|s| - 1]) then [s[|s| - 1]] else [])
  }

  /** Stripping distributes over concatenation: together with
      `LettersSingleton` this pins `Letters` down as "keep exactly the
      letters, in order". */
  lemma {:induction false} LettersAppend(a: string, b: string)
    ensures Letters(a + b) == Letters(a) + Letters(b)
    decreases |b|
  {
    if b == [] {
      assert a + b == a;
    } else {
      var b' := b[..|b| - 1];
      assert (a + b)[..|a + b| - 1] == a + b';
      LettersAppend(a, b');
    }
  }

  /** A single character survives exactly when it is a letter. */
  lemma {:induction false} LettersSingleton(c: char)
    ensures Letters([c]) == if IsAlpha(c) then [c] else []
  {
    assert [c][..0] == [];
  }

  /** The stripped key is empty exactly when the key held no letter. */
  lemma {:induction false} LettersEmptyIff(s: string)
    ensures Letters(s) == [] <==> NoAlpha(s)
    decreases |s|
  {
    if s != [] {
      var s' := s[..|s| - 1];
      LettersEmptyIff(s');
      assert forall i :: 0 <= i < |s'| ==> s'[i] == s[i];
    }
  }

  /** A key made only of letters is left as it is, and only such a key. */
  lemma {:induction false} LettersFixedIff(s: string)
    ensures Letters(s) == s <==> AllAlpha(s)
    decreases |s|
  {
    if s != [] {
      var s' := s[..|s| - 1];
      LettersFixedIff(s');
      assert s == s' + [s[|s| - 1]];
      if !IsAlpha(s[|s| - 1]) {
        assert |Letters(s)| <= |s'| < |s|;
      }
    }
  }

  /** `removeNotAlphabetChars`, which compacts the letters to the front in
      place (`std::remove_if`) and erases the tail. */
  method RemoveNotAlphabetChars(key: StringRef)
    modifies key
    ensures key.value == Letters(old(key.value))
  {
    if |key.value| == 0 {
      return;
    }
    ghost var original := key.value;
    var write := 0;
    var read := 0;
    while read < |key.value|
      invariant 0 <= write <= read <= |key.value| == |original|
      invariant key.value[..write] == Letters(original[..read])
      invariant key.value[read..] == original[read..]
    {
      assert original[..read + 1][..read] == original[..read];
      var ch := key.value[read];
      assert ch == original[read];
      if IsAlpha(ch) {
        key.value := key.value[write := ch];
        assert key.value[..write + 1] == Letters(original[..read]) + [ch];
        write := write + 1;
      }
      read := read + 1;
    }
    assert original[..read] == original;
    key.value := key.value[..write];
  }

  /** Why `genKey` gives up; each stops the program with exit status 1. */
  datatype KeyError =
    | MissingKey  // "Enter the secret key": the key slot held the -e or -d flag
    | NoLetters   // the key had no letter left after stripping

  /** The outcome of `genKey` on the raw key argument. */
  function NormalizeKey(raw: string): (r: Result<string, KeyError>)
    ensures r.Err? <==> raw == "-e" || raw == "-d" || NoAlpha(raw)
    ensures r.Err? ==> (r.error == MissingKey <==> raw == "-e" || raw == "-d")
    ensures r.Ok? ==> r.value == Letters(raw) && |r.value| > 0 && AllAlpha(r.value)
  {
    LettersEmptyIff(raw);
    if raw == "-e" || raw == "-d" then Err(MissingKey)
    else if Letters(raw) == [] then Err(NoLetters)
    else Ok(Letters(raw))
  }

  /** `genKey`: rejects a flag in the key slot, strips the key in place
      and rejects a key left empty. The key is not lower-cased here. */
  method GenKey(key: StringRef) returns (err: Option<KeyError>)
    modifies key
    ensures err.None? <==> NormalizeKey(old(key.value)).Ok?
    ensures err.None? ==> key.value == NormalizeKey(old(key.value)).value
    ensures err.Some? ==> err.value == NormalizeKey(old(key.value)).error
    ensures old(key.value) == "-e" || old(key.value) == "-d" ==> key.value == old(key.value)
    ensures err == Some(NoLetters) ==> key.value == []
  {
    if key.value == "-e" || key.value == "-d" {
      return Some(MissingKey);
    }
    RemoveNotAlphabetChars(key);
    if |key.value| == 0 {
      return Some(NoLetters);
    }
    return None;
  }
}
