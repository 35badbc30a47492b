# vigen in Dafny

A model of `vigen`, a command-line Vigenère cipher for text files
(`vigen.cc`). The key given with `-k` is stripped of every non-letter
(`genKey`); each line of the input file is then encrypted (`-e`, written to
`<file>.vig`) or decrypted (`-d`, written to `clear_text.txt`) one line at a
time. Letters are shifted by the key letter at the same character position,
modulo 26. Everything else is copied through unchanged.

The model keeps the program's own form:

- `Ascii` holds the "C"-locale `isalpha`/`tolower`, restricted to ASCII. It
  also holds `StringRef`, the `std::string` that `vigen.cc` passes by
  non-const reference and changes in place.
- `KeyNormalizer` holds `removeNotAlphabetChars`, an in-place compaction
  (`std::remove_if` then `erase`), and `genKey`. Both are methods on a
  `StringRef`, and each is proved against a specification function
  (`Letters`, `NormalizeKey`).
- `Cipher` holds `encrypt`, which lower-cases the caller's line and key in
  place and then loops, and `decrypt`, which loops over const references.
  Both are methods proved against the functions `Encrypted` and
  `Decrypted`. Their laws are lemmas: output shape, pass-through,
  per-letter shift, and the round trip.
  - The index arithmetic of vigen.cc:68 and vigen.cc:86 mixes `int` and
    `size_t`. The model converts a negative `int` to `size_t` explicitly,
    modulo 2^64 (`ToSizeT`). It does not exclude such values by a
    precondition.
- `FileTransform` holds `encryptToFile` and `decryptToFile`. Each is a
  loop over the lines that `std::getline` yields (`GetLines`). The input
  file is its contents, or `None` when it cannot be opened. The output file
  is a name and the text written to it.
- `Cli` holds the branching of `main` as a function from the argument
  vector to an `Action`. `MainOutcome` then gives the exit status and the
  written file.

Three behaviours of the code are modelled as they are, though they may
look unintended:

- `decrypt` does not lower-case its key, so the round trip holds only for
  keys whose letters are lower-case.
- The check at vigen.cc:159 never stops the run.
- An unknown mode flag exits with status 0.

## Model

| member | source | states |
|---|---|---|
| `Ascii.Lower` | vigen.cc:57-58 | `std::transform(…, ::tolower)` as a value: same length; a character is a letter if and only if its image is a lower-case letter; everything but upper-case letters is unchanged; idempotent and fixing all-lower-case strings (`LowerIdempotent`), letters and non-letters keep their positions (`LowerLetters`) |
| `Ascii.IsAlpha` | vigen.cc:32 | `isalpha`: true exactly for the 52 ASCII letters |
| `Ascii.ToLower` | vigen.cc:57-58 | `tolower`: a character is a letter if and only if its image is a lower-case letter; an upper-case letter keeps its alphabet position; everything else is unchanged |
| `Ascii.LowerInPlace` | vigen.cc:57-58 | the string is lower-cased in place: afterwards every character is `tolower` of the character that was there |
| `KeyNormalizer.Letters` | vigen.cc:28-34 | the stripped key consists only of letters and is no longer than the key |
| `KeyNormalizer.LettersAppend` | vigen.cc:31-33 | stripping distributes over concatenation, so the letters keep their original order |
| `KeyNormalizer.LettersSingleton` | vigen.cc:31-33 | a single character survives stripping exactly when it is a letter |
| `KeyNormalizer.LettersEmptyIff` | vigen.cc:28-34 | the stripped key is empty if and only if the key held no letter |
| `KeyNormalizer.LettersFixedIff` | vigen.cc:28-34 | stripping leaves a key unchanged if and only if it is all letters |
| `KeyNormalizer.RemoveNotAlphabetChars` | vigen.cc:28-34 | after the in-place compaction and erase, the key holds exactly its former letters, in order |
| `KeyNormalizer.NormalizeKey` | vigen.cc:36-48 | fails if and only if the key is `-e` or `-d` (missing key) or has no letter; on success the key is its letters, non-empty and all letters |
| `KeyNormalizer.GenKey` | vigen.cc:36-48 | reports failure exactly when `NormalizeKey` does, with the same reason; on success the caller's key is the stripped key, not lower-cased; a flag in the key slot is left untouched; a key with no letters is left empty |
| `Cipher.AlphabetOffsets` | vigen.cc:9-10 | the alphabet has 26 entries, and entry `p` is the letter `'a' + p` |
| `Cipher.ToSizeT` | vigen.cc:86 | the `int`-to-`size_t` conversion of vigen.cc:68 and vigen.cc:86: the result is below 2^64, a value already in range is unchanged, and a negative value down to -2^64 wraps to itself plus 2^64 |
| `Cipher.EncryptIndex` | vigen.cc:68 | the alphabet position `encrypt` computes, with the `int` sum converted to `size_t`, is below 26 |
| `Cipher.DecryptIndex` | vigen.cc:86 | the alphabet position `decrypt` computes, with the `int` difference converted to `size_t`, is below 26 |
| `Cipher.Encrypted` | vigen.cc:50-73 | the string `encrypt` returns; its shape, pass-through, letter shift and round trip are the lemmas `EncryptedShape`, `NonLettersPassThrough`, `EncryptedLetter` and `RoundTrip` |
| `Cipher.Decrypted` | vigen.cc:75-91 | the string `decrypt` returns, defined whenever no `i % 0` is reached; its laws are `DecryptedShape`, `NonLettersPassThrough`, `DecryptedLetter` and `RoundTripReverse` |
| `Cipher.Encrypt` | vigen.cc:50-73 | returns `Encrypted` of the old line and key; when both are non-empty, it leaves the caller's line and key lower-cased, and otherwise it leaves both unchanged |
| `Cipher.Decrypt` | vigen.cc:75-91 | returns `Decrypted` of its arguments whenever no `i % 0` is reached (the key is non-empty or the text has no letter) |
| `Cipher.EncryptedShape` | vigen.cc:52-55 | `encrypt` returns "" if and only if the line or the key is empty; otherwise the result is one character longer than the line and ends in a newline |
| `Cipher.DecryptedShape` | vigen.cc:75-91 | `decrypt` always returns one character more than its input, ending in a newline; an empty line gives "\n" |
| `Cipher.NonLettersPassThrough` | vigen.cc:63-84 | a non-letter is copied to the same index by `encrypt` and by `decrypt` |
| `Cipher.EncryptedLetter` | vigen.cc:57-69 | a letter becomes a lower-case letter; when the key character is a letter, the result is the lower-cased letter shifted by the lower-cased key letter at position `i mod |key|`, modulo 26, where `i` counts every character of the line |
| `Cipher.DecryptedLetter` | vigen.cc:81-87 | a letter becomes a lower-case letter; for a lower-case letter under a lower-case key letter, the result is the backward shift modulo 26 |
| `Cipher.EncryptedKeyCase` | vigen.cc:57-58 | encrypting under the lower-cased key gives the same result, so the in-place lower-casing of the caller's key does not change later lines |
| `Cipher.ShiftRoundTrip` | vigen.cc:68-86 | for lower-case letters, the decrypt index undoes the encrypt index |
| `Cipher.ShiftRoundTripReverse` | vigen.cc:68-86 | for lower-case letters, the encrypt index undoes the decrypt index |
| `Cipher.RoundTrip` | vigen.cc:50-91 | for a non-empty line and a non-empty all-lower-case key, decrypting the encrypted line (without its newline) gives the line lower-cased plus a newline |
| `Cipher.RoundTripReverse` | vigen.cc:50-91 | for a non-empty line whose letters are lower-case and a non-empty all-lower-case key, encrypting the decrypted line gives the line back |
| `Cipher.MixedCaseKeyBreaksRoundTrip` | vigen.cc:75-91 | under the key "B", "a" encrypts to "b\n" and "b" decrypts to "g\n", so the round trip fails |
| `Cipher.RoundTripFoldedKey` | vigen.cc:57-58 | when decrypt lower-cases the key as encrypt does, the round trip holds for every non-empty all-letter key of any case |
| `FileTransform.GetLines` | vigen.cc:104-107 | the lines the `getline` loop yields: the newline ends a line and is dropped, and trailing text without a newline is a last line; its laws are `GetLinesNoNewline`, `GetLinesOfLine` and `GetLinesAppend` |
| `FileTransform.EncryptedLines` | vigen.cc:104-107 | the text `encryptToFile` writes, each line's `encrypt` result in turn; `EncryptToFile` is proved to write it and `FileRoundTripLines` to undo it |
| `FileTransform.DecryptedLines` | vigen.cc:124-127 | the text `decryptToFile` writes, each line's `decrypt` result in turn; `DecryptToFile` is proved to write it |
| `FileTransform.GetLinesNoNewline` | vigen.cc:104-107 | no line read by `std::getline` contains a newline |
| `FileTransform.GetLinesOfLine` | vigen.cc:104-107 | a newline-free line followed by a newline is read back as exactly that one line |
| `FileTransform.GetLinesAppend` | vigen.cc:104-107 | reading lines from text split after a newline gives the lines of each part in turn |
| `FileTransform.GetLinesDecryptable` | vigen.cc:124-127 | if `decrypt` is defined on the whole input, it is defined on every line read from it |
| `FileTransform.EncryptedLineShape` | vigen.cc:63-72 | the encryption of a newline-free, non-empty line has its only newline at the end |
| `FileTransform.EncryptedLinesEnd` | vigen.cc:104-107 | the text `encryptToFile` writes is empty or ends in a newline |
| `FileTransform.EncryptToFile` | vigen.cc:93-111 | fails with the file name if the input cannot be opened; otherwise writes `<file>.vig` holding each line's `encrypt` result in turn; the caller's key becomes its lower-cased old value when some line is non-blank and the key is non-empty, and is unchanged otherwise (also when the input cannot be opened) |
| `FileTransform.DecryptToFile` | vigen.cc:113-131 | fails with the file name if the input cannot be opened; an input spelled `clear_text.txt` is truncated by the output stream before it is read, so the file is left empty whatever the key; otherwise writes `clear_text.txt` holding each line's `decrypt` result in turn; the key is not changed |
| `FileTransform.FileRoundTripLines` | vigen.cc:93-131 | decrypting, line by line, the lines of the encrypted text under the same lower-case key gives every non-blank line lower-cased with its newline; blank lines are lost |
| `FileTransform.FileRoundTrip` | vigen.cc:93-131 | the same round trip, starting from the raw contents of the input file |
| `Cli.Dispatch` | vigen.cc:144-175 | a run happens only with 4 or 5 arguments; it carries the empty key exactly when argument 1 is not `-k`, and otherwise a key made only of letters |
| `Cli.DispatchByCount` | vigen.cc:150-157 | help if and only if the arguments are exactly `-h`; a usage error if and only if the count is otherwise outside 4 to 5 |
| `Cli.DispatchWithCount` | vigen.cc:159-175 | with 4 or 5 arguments: failure if and only if `-k` is given and its key is rejected; the hint is printed if and only if argument 1 is not `-k`, and the run then goes on with an empty key; the mode is none if and only if argument 3 is neither `-e` nor `-d`; the name is prompted for if and only if there are 4 arguments |
| `Cli.ModeOf` | vigen.cc:171-175 | argument 3 selects encryption if and only if it is `-e`, decryption if and only if it is `-d`, and no transformation otherwise |
| `Cli.InputName` | vigen.cc:133-142 | the name `setFilename` settles on: the prompted line or the given argument; `InputNameOfArgs` ties it to the argument vector |
| `Cli.InputNameOfArgs` | vigen.cc:133-142 | on a run, the input name is argument 4 when there are 5 arguments, and the line typed after the prompt when there are 4 |
| `Cli.MalformedFlagsAccepted` | vigen.cc:159-175 | `vigen -x secret -e notes.txt` runs with an empty key; `vigen -k secret -x notes.txt` exits 0 having written nothing |
| `Cli.DispatchStrict` | vigen.cc:159-175 | the corrected dispatch runs only with 4 or 5 arguments, `-k` in place and a real mode |
| `Cli.DispatchStrictSound` | vigen.cc:159-175 | the strict dispatch agrees with `main` on well-formed arguments, rejects both malformed examples, and runs only with a valid key and a real mode |
| `Cli.MainOutcome` | vigen.cc:144-178 | status 0 if and only if the run is help, a no-mode run, or a run that wrote its output file; a written file is the input name plus `.vig` when encrypting and `clear_text.txt` when decrypting |
| `Cli.MainExitStatus` | vigen.cc:144-178 | the status is 1 exactly for a usage error, a rejected key, or an input that cannot be opened, and 0 otherwise; behaviour is undefined only when decrypting without `-k` |
| `Cli.DecryptOverClearText` | vigen.cc:113-127 | decrypting an input spelled `clear_text.txt` leaves it empty, because the output stream truncates it before the first line is read |
| `Cli.MainRoundTrip` | vigen.cc:144-178 | `vigen -k K -e f` followed by `vigen -k K -d f.vig` writes `clear_text.txt` holding the non-blank lines of `f` lower-cased, when the letters of K are lower-case |

## Left out

- File and console I/O are abstracted. The input file is its contents, or
  `None` when it cannot be opened. The prompt's answer is a parameter
  (`typed`). The file system is a map from names to contents. The written
  file is a name and its text. Write failures are not modelled.
- The texts of `usage`, `error_message` and the diagnostics are not
  modelled. `exit(1)` becomes an error value (`KeyError`, `FileError`,
  `Action`, exit status).
- Characters outside ASCII are not modelled faithfully. `isalpha` and
  `tolower` are their "C"-locale ASCII meaning, and any other character is
  a non-letter. The program works on bytes, while the model counts one
  position per character (code point). A multi-byte character in a line is
  one position in the model but several in the program, so it shifts the
  key index of every later letter and changes the output length: the model
  gives `Encrypted("éa", "ab") == "éb\n"` where the program writes "éa\n".
  The arithmetic on a non-ASCII key character likewise uses its code point
  where the program uses a possibly negative byte.
- `Cipher.ToSizeT` assumes a 64-bit `size_t`. A build with a 32-bit
  `size_t` wraps negative offsets modulo 2^32, which is not 2^64 modulo 26,
  so it would pick other letters for them.
- `Cli.MainOutcome` tells files apart by their spelled name only. Another
  path to `clear_text.txt` (`./clear_text.txt`, an absolute path, a link)
  counts as a different file, so decrypting it is modelled as writing the
  decrypted text, while the program's truncating output stream leaves the
  file empty.
- `FileTransform.GetLines` reads files as POSIX text mode does: a line ends
  at '\n' only. A '\r' of a CRLF file stays in the line and is treated as a
  non-letter; the platform's own line-ending convention is not modelled.
- `decrypt` with an empty key reaches `i % 0` on the first letter. That is
  undefined behaviour. `Cipher.Decrypt` requires the exact condition under
  which it is not reached, and `Cli.MainOutcome` yields `Undefined` there.
- `Cli.Dispatch` and `Cli.MainOutcome` follow the code as written, using
  `decrypt` as it is and the check at vigen.cc:159 as it is. The corrected
  definitions of the findings below stand beside them.

## Findings

| source | as written | input that shows it | evidently intended | confidence | as-written member | corrected member |
|---|---|---|---|---|---|---|
| vigen.cc:75-91 | `decrypt` uses the key as given, while `encrypt` lower-cases it first | key "B", line "a": `encrypt` gives "b", and decrypting "b" gives "g", not "a"; so `vigen -k Key -e f` and then `vigen -k Key -d f.vig` do not restore `f` | `decrypt` lower-cases the key like `encrypt`, so every key `genKey` accepts round-trips | high, not executed | `Cipher.MixedCaseKeyBreaksRoundTrip` | `Cipher.RoundTripFoldedKey` |
| vigen.cc:159-160 | `all_args[3] != "-e" \|\| all_args[3] != "-d"` is always true, and `error_message()` does not stop the run | `vigen -x secret -e notes.txt` encrypts under an empty key and writes an empty `notes.txt.vig`; `vigen -k secret -x notes.txt` exits 0 having done nothing | a usage error unless argument 1 is `-k` and argument 3 is `-e` or `-d` | medium, not executed | `Cli.MalformedFlagsAccepted` | `Cli.DispatchStrictSound` |
