/** The file transformers `encryptToFile` and `decryptToFile`
    (vigen.cc:93-131), with the file system abstracted: the input file is
    its contents (or `None` when it cannot be opened), the output file a
    name and the text written to it. */
module FileTransform {
  import opened Wrappers
  import opened Ascii
  import opened Cipher

  datatype OutputFile = OutputFile(name: string, contents: string)

  /** "Unable to open '<name>': File not found", then exit status 1. */
  datatype FileError = FileNotFound(name: string)

  /** The name `decryptToFile` always writes to. */
  const ClearTextFile: string := "clear_text.txt"

  predicate NoNewline(s: string) {
    forall i :: 0 <= i < |s| ==> s[i] != '\n'
  }

  /** Index of the first newline of `s`, or `|s|` when there is none. */
  function NewlineIndex(s: string): (n: nat)
    ensures n <= |s|
  {
    if s == [] || s[0] == '\n' then 0 else 1 + NewlineIndex(s[1..])
  }

  /** The lines successive `std::getline` calls yield from a stream holding
      `s`: the newline ends a line and is dropped, and text after the last
      newline is a line only when it is not empty. */
  function GetLines(s: string): (lines: seq<string>)
    decreases |s|
  {
    if s == [] then []
    else
      var n := NewlineIndex(s);
      if n == |s| then [s] else [s[..n]] + GetLines(s[n + 1..])
  }

  /** What `encryptToFile` writes: each line's `encrypt` result in turn. */
  function EncryptedLines(lines: seq<string>, key: string): string {
    if lines == [] then []
    else EncryptedLines(lines[..|lines| - 1], key) + Encrypted(lines[|lines| - 1], key)
  }

  predicate LinesDecryptable(lines: seq<string>, key: string) {
    forall i :: 0 <= i < |lines| ==> DecryptDefined(lines[i], key)
  }

  /** What `decryptToFile` writes: each line's `decrypt` result in turn. */
  function DecryptedLines(lines: seq<string>, key: string): string
    requires LinesDecryptable(lines, key)
  {
    if lines == [] then []
    else DecryptedLines(lines[..|lines| - 1], key) + Decrypted(lines[|lines| - 1], key)
  }

  /** True when some line is not blank, i.e. some `encrypt` call lower-cases the key. */
  predicate SomeLineNonBlank(lines: seq<string>) {
    exists i :: 0 <= i < |lines| && lines[i] != []
  }

  /** The caller's key after `encrypt` has run on `lines`: lower-cased in
      place by the first non-blank line. */
  function KeyAfter(lines: seq<string>, key: string): string {
    if SomeLineNonBlank(lines) && key != [] then Lower(key) else key
  }

  /** One more line read: the key is lower-cased by that line if it is not
      blank, and lower-casing it again changes nothing. */
  lemma {:induction false} KeyAfterStep(lines: seq<string>, i: nat, key: string)
    requires i < |lines|
    ensures KeyAfter(lines[..i + 1], key) ==
      if lines[i] != [] && KeyAfter(lines[..i], key) != []
      then Lower(KeyAfter(lines[..i], key)) else KeyAfter(lines[..i], key)
    ensures Encrypted(lines[i], KeyAfter(lines[..i], key)) == Encrypted(lines[i], key)
  {
    EncryptedLinesStep(lines, i, key);
    LowerIdempotent(key);
    EncryptedKeyCase(lines[i], key);
  }

  /** `encryptToFile`: fails when the input cannot be opened, otherwise
      writes `<filename>.vig`. The caller's key is lower-cased in place by
      the first non-blank line. */
  method EncryptToFile(filename: string, input: Option<string>, secKey: StringRef)
    returns (r: Result<OutputFile, FileError>)
    modifies secKey
    ensures input.None? ==> r == Err(FileNotFound(filename)) && secKey.value == old(secKey.value)
    ensures input.Some? ==>
      r == Ok(OutputFile(filename + ".vig", EncryptedLines(GetLines(input.value), old(secKey.value))))
    ensures input.Some? ==>
      secKey.value ==
        if SomeLineNonBlank(GetLines(input.value)) && old(secKey.value) != []
        then Lower(old(secKey.value)) else old(secKey.value)
  {
    if input.None? {
      return Err(FileNotFound(filename));
    }
    var encryptedFile := filename + ".vig";
    var lines := GetLines(input.value);
    var written := "";
    ghost var key0 := secKey.value;
    var line := new StringRef("");
    var i := 0;
    while i < |lines|
      invariant 0 <= i <= |lines|
      invariant fresh(line)
      invariant written == EncryptedLines(lines[..i], key0)
      invariant secKey.value == KeyAfter(lines[..i], key0)
    {
      line.value := lines[i];
      var encrypted := Encrypt(line, secKey);
      KeyAfterStep(lines, i, key0);
      EncryptedLinesStep(lines, i, key0);
      written := written + encrypted;
      i := i + 1;
    }
    assert lines[..i] == lines;
    return Ok(OutputFile(encryptedFile, written));
  }

  /** `decryptToFile`: fails when the input cannot be opened, otherwise
      writes `clear_text.txt`; the key is only read. `input` is the text
      when the input is opened; opening the output truncates an input
      spelled `clear_text.txt` before its first line is read. */
  method DecryptToFile(filename: string, input: Option<string>, secKey: string)
    returns (r: Result<OutputFile, FileError>)
    requires input.None? || filename == ClearTextFile || DecryptDefined(input.value, secKey)
    ensures input.None? ==> r == Err(FileNotFound(filename))
    ensures input.Some? && filename == ClearTextFile ==> r == Ok(OutputFile(ClearTextFile, ""))
    ensures input.Some? && filename != ClearTextFile ==> LinesDecryptable(GetLines(input.value), secKey)
    ensures input.Some? && filename != ClearTextFile ==>
      r == Ok(OutputFile(ClearTextFile, DecryptedLines(GetLines(input.value), secKey)))
  {
    if input.None? {
      return Err(FileNotFound(filename));
    }
    if filename == ClearTextFile {
      return Ok(OutputFile(ClearTextFile, ""));
    }
    var lines := GetLines(input.value);
    GetLinesDecryptable(input.value, secKey);
    var written := "";
    var i := 0;
    while i < |lines|
      invariant 0 <= i <= |lines|
      invariant written == DecryptedLines(lines[..i], secKey)
    {
      var decrypted := Decrypt(lines[i], secKey);
      assert lines[..i + 1][..i] == lines[..i];
      written := written + decrypted;
      i := i + 1;
    }
    assert lines[..i] == lines;
    return Ok(OutputFile(ClearTextFile, written));
  }

  /** One more line read: one more `encrypt` result written, and the key
      lower-cased if that line is not blank. */
  lemma {:induction false} EncryptedLinesStep(lines: seq<string>, i: nat, key: string)
    requires i < |lines|
    ensures EncryptedLines(lines[..i + 1], key) == EncryptedLines(lines[..i], key) + Encrypted(lines[i], key)
    ensures SomeLineNonBlank(lines[..i + 1]) <==> SomeLineNonBlank(lines[..i]) || lines[i] != []
  {
    assert lines[..i + 1][..i] == lines[..i];
    if lines[i] != [] {
      assert lines[..i + 1][i] == lines[i];
    }
    if SomeLineNonBlank(lines[..i + 1]) && lines[i] == [] {
      var j :| 0 <= j < i + 1 && lines[..i + 1][j] != [];
      assert j < i && lines[..i][j] != [];
    }
  }

  // ---------------------------------------------------------------------
  // Laws

  /** `NewlineIndex` finds the first newline, if there is one. */
  lemma {:induction false} NewlineIndexSpec(s: string)
    ensures forall j :: 0 <= j < NewlineIndex(s) ==> s[j] != '\n'
    ensures NewlineIndex(s) < |s| ==> s[NewlineIndex(s)] == '\n'
    decreases |s|
  {
    if s != [] && s[0] != '\n' {
      NewlineIndexSpec(s[1..]);
    }
  }

  /** The first newline is at `m` when none comes before and one is at `m`. */
  lemma {:induction false} NewlineIndexIs(s: string, m: nat)
    requires m <= |s|
    requires forall j :: 0 <= j < m ==> s[j] != '\n'
    requires m < |s| ==> s[m] == '\n'
    ensures NewlineIndex(s) == m
  {
    NewlineIndexSpec(s);
  }

  /** A line of the input is a piece of it, so a letter-free input gives
      letter-free lines and `decrypt` is defined on each of them. */
  lemma {:induction false} GetLinesDecryptable(s: string, key: string)
    requires DecryptDefined(s, key)
    ensures LinesDecryptable(GetLines(s), key)
    decreases |s|
  {
    if s != [] && |key| == 0 {
      var n := NewlineIndex(s);
      if n < |s| {
        GetLinesDecryptable(s[n + 1..], key);
        assert forall j :: 0 <= j < n ==> s[..n][j] == s[j];
      }
    }
  }

  /** The newline search stops in the first part when that part has one. */
  lemma {:induction false} NewlineIndexAppend(a: string, b: string)
    requires NewlineIndex(a) < |a|
    ensures NewlineIndex(a + b) == NewlineIndex(a)
  {
    NewlineIndexSpec(a);
    NewlineIndexIs(a + b, NewlineIndex(a));
  }

  /** A line with no newline, followed by one, is read back as itself. */
  lemma {:induction false} GetLinesOfLine(x: string)
    requires NoNewline(x)
    ensures GetLines(x + "\n") == [x]
  {
    var s := x + "\n";
    NewlineIndexIs(s, |x|);
    assert s[..|x|] == x;
    assert s[|x| + 1..] == [];
  }

  /** No line read by `std::getline` holds a newline. */
  lemma {:induction false} GetLinesNoNewline(s: string)
    ensures forall i :: 0 <= i < |GetLines(s)| ==> NoNewline(GetLines(s)[i])
    decreases |s|
  {
    if s != [] {
      NewlineIndexSpec(s);
      var n := NewlineIndex(s);
      if n < |s| {
        GetLinesNoNewline(s[n + 1..]);
      }
    }
  }

  /** A text with a newline is read as its first line, then the lines of
      what follows that newline. */
  lemma {:induction false} GetLinesFirst(s: string)
    requires NewlineIndex(s) < |s|
    ensures GetLines(s) == [s[..NewlineIndex(s)]] + GetLines(s[NewlineIndex(s) + 1..])
  {
  }

  lemma ConcatAssoc<T>(x: seq<T>, y: seq<T>, z: seq<T>)
    ensures x + (y + z) == (x + y) + z
  {
  }

  /** Reading lines splits at a boundary that ends in a newline. */
  lemma {:induction false} GetLinesAppend(a: string, b: string)
    requires a == [] || a[|a| - 1] == '\n'
    ensures GetLines(a + b) == GetLines(a) + GetLines(b)
    decreases |a|
  {
    if a == [] {
      assert a + b == b;
    } else {
      NewlineIndexSpec(a);
      var n := NewlineIndex(a);
      assert n < |a|;
      var line, rest := a[..n], a[n + 1..];
      assert rest == [] || rest[|rest| - 1] == '\n';
      GetLinesFirst(a);
      NewlineIndexAppend(a, b);
      assert (a + b)[..n] == line && (a + b)[n + 1..] == rest + b;
      GetLinesFirst(a + b);
      GetLinesAppend(rest, b);
      ConcatAssoc([line], GetLines(rest), GetLines(b));
    }
  }

  /** The encrypted text of a line has no newline before its last character. */
  lemma {:induction false} EncryptedLineShape(l: string, key: string)
    requires l != [] && key != [] && NoNewline(l)
    ensures Encrypted(l, key) == Encrypted(l, key)[..|l|] + "\n"
    ensures NoNewline(Encrypted(l, key)[..|l|])
  {
    LowerLetters(l);
    AlphabetOffsets();
    var e := Encrypted(l, key)[..|l|];
    forall i | 0 <= i < |l|
      ensures e[i] != '\n'
    {
      if IsAlpha(Lower(l)[i]) {
        assert e[i] == Alphabet[EncryptIndex(Lower(l)[i], Lower(key)[i % |key|])];
      }
    }
  }

  /** The output of `encryptToFile` is empty or ends with a newline. */
  lemma {:induction false} EncryptedLinesEnd(lines: seq<string>, key: string)
    ensures var t := EncryptedLines(lines, key); t == [] || t[|t| - 1] == '\n'
    decreases |lines|
  {
    if lines != [] {
      EncryptedLinesEnd(lines[..|lines| - 1], key);
      EncryptedShape(lines[|lines| - 1], key);
    }
  }

  /** Decrypting line by line distributes over concatenation of the lines. */
  lemma {:induction false} DecryptedLinesAppend(xs: seq<string>, ys: seq<string>, key: string)
    requires key != []
    ensures DecryptedLines(xs + ys, key) == DecryptedLines(xs, key) + DecryptedLines(ys, key)
    decreases |ys|
  {
    if ys == [] {
      assert xs + ys == xs;
    } else {
      var ys', y := ys[..|ys| - 1], ys[|ys| - 1];
      assert (xs + ys)[..|xs + ys| - 1] == xs + ys' && (xs + ys)[|xs + ys| - 1] == y;
      DecryptedLinesAppend(xs, ys', key);
      ConcatAssoc(DecryptedLines(xs, key), DecryptedLines(ys', key), Decrypted(y, key));
    }
  }

  /** The text a full round trip yields: every non-blank line lower-cased,
      each followed by a newline; blank lines are gone. */
  function ClearLines(lines: seq<string>): string {
    if lines == [] then []
    else
      var l := lines[|lines| - 1];
      ClearLines(lines[..|lines| - 1]) + (if l == [] then [] else Lower(l) + "\n")
  }

  /** File round trip over lines: decrypting, line by line, the lines read
      back from the `.vig` text under the same lower-case key gives every
      non-blank input line lower-cased; blank lines do not come back. */
  lemma {:induction false} FileRoundTripLines(lines: seq<string>, key: string)
    requires key != [] && AllLower(key)
    requires forall i :: 0 <= i < |lines| ==> NoNewline(lines[i])
    ensures DecryptedLines(GetLines(EncryptedLines(lines, key)), key) == ClearLines(lines)
    decreases |lines|
  {
    if lines != [] {
      var front, l := lines[..|lines| - 1], lines[|lines| - 1];
      var a, b := EncryptedLines(front, key), Encrypted(l, key);
      EncryptedLinesEnd(front, key);
      GetLinesAppend(a, b);
      FileRoundTripLines(front, key);
      if l == [] {
        assert GetLines(a + b) + [] == GetLines(a + b);
        assert GetLines(a) + GetLines(b) == GetLines(a);
      } else {
        EncryptedLineShape(l, key);
        var e := b[..|l|];
        GetLinesOfLine(e);
        RoundTrip(l, key);
        DecryptedLinesAppend(GetLines(a), [e], key);
        assert [e][..0] == [];
      }
    }
  }

  /** File round trip: `decryptToFile` run on the text `encryptToFile`
      wrote, under the same lower-case key, reproduces the input lower-cased
      with its blank lines removed. */
  lemma {:induction false} FileRoundTrip(contents: string, key: string)
    requires key != [] && AllLower(key)
    ensures DecryptDefined(EncryptedLines(GetLines(contents), key), key)
    ensures DecryptedLines(GetLines(EncryptedLines(GetLines(contents), key)), key)
      == ClearLines(GetLines(contents))
  {
    GetLinesNoNewline(contents);
    FileRoundTripLines(GetLines(contents), key);
  }
}
