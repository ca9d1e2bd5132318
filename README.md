# gibbercode in Dafny

gibbercode writes a pair of `u128` numbers as pronounceable text and reads
them back:

- **The radix codec.**
  - `encode_with_alphabet` writes a number in base N over an ordered
    alphabet of N bytes, least significant digit first.
  - `decode_with_alphabet` reads such a string back with a wrapping `u128`
    fold.
- **`encode(major, minor)`.**
  - It writes `major` over the 17 consonants `kgsztdnpbmjrlwvxq` and `minor`
    over the 5 vowels `aiouy`.
  - The consonant digits are padded with endless `h` and the vowel digits
    with endless `e`. The two are woven into consonant-vowel-consonant
    syllables, up to the first all-pad syllable `heh`.
  - The syllables are grouped two to a word, `hh` is deleted from each
    word, and the words are joined with `-`.
- **`decode(text)`.** It keeps the consonants of the text and, separately,
  its vowels, each in order. Then it decodes each stream through its own
  alphabet. Every other byte is ignored, so decoding never fails.

The project has two modules:

- `Radix` (`radix.dfy`) holds the codec.
  - `EncodeWithAlphabet` is the imperative loop of the Rust crate. It is
    proved equal to the digit function `Digits`.
  - `DecodeWithAlphabet` is the fold.
  - `Value` is the positional value Σ digit(s[i])·N^i, and it links the
    two.
- `Gibbercode` (`gibbercode.dfy`) holds the alphabets, `Encode` (syllables,
  words, `hh` removal, hyphen join) and `Decode` (`Keep` filters a
  stream). On top of them it proves:
  - the round trip;
  - that `decode` is insensitive to noise;
  - the wire format;
  - the shape of the syllable stream;
  - the three concrete cases of the crate's tests.

## Model

| member | source | states |
|---|---|---|
| Radix.Digits | src/lib.rs:6-11 | every digit byte is in the alphabet; the digit string is empty exactly when the value is 0; only 0 may be written over an alphabet of fewer than 2 bytes |
| Radix.EncodeWithAlphabet | src/lib.rs:5-13 | the loop (divide by the base, push the byte of the remainder) returns exactly the base-N digits of the value, least significant first, and returns the empty string for 0 |
| Radix.DigitsAt | src/lib.rs:8-10 | digit i of the output is the alphabet byte at index (v / N^i) mod N |
| Radix.DigitsLength | src/lib.rs:8-10 | the output has the fewest digits that can hold v: v < N^len, and N^(len-1) <= v when len > 0 |
| Radix.Lookup | src/lib.rs:16-20 | the index the table gives a byte points at that byte, and no later index holds it (the table keeps the last insertion) |
| Radix.LookupDistinct | src/lib.rs:16-20 | over an alphabet without repeats, the table maps the byte at index k back to k |
| Radix.WrappingMul | src/lib.rs:25 | no contract of its own: u128 multiplication wrapping mod 2^128; its use in the fold is described by Radix.DecodeIsValueMod |
| Radix.WrappingAdd | src/lib.rs:25 | no contract of its own: u128 addition wrapping mod 2^128; its use in the fold is described by Radix.DecodeIsValueMod |
| Radix.Value | src/lib.rs:21-27 | no contract of its own: the reference definition Σ index(s[i])·N^i that Radix.DecodeIsValueMod, Radix.ValueCons and Radix.ValueOfDigits relate the fold and the digits to |
| Radix.DecodeWithAlphabet | src/lib.rs:21-27 | the fold over an empty string is 0 |
| Radix.DecodeIsValueMod | src/lib.rs:15-27 | the wrapping fold equals the positional value Σ index(s[i])·N^i reduced mod 2^128 |
| Radix.ValueCons | src/lib.rs:24-26 | the positional value obeys the fold's Horner step: value(s) = index(s[0]) + N·value(s[1..]) |
| Radix.ValueOfDigits | src/lib.rs:5-11 | the positional value of the digit string of v is v itself, for an alphabet of at least 2 distinct bytes |
| Radix.DecodeEncode | src/lib.rs:5-28 | decode_with_alphabet(encode_with_alphabet(v, a), a) == v for every u128 v and every alphabet of at least 2 distinct bytes |
| Radix.EncodeTrivialExample | src/lib.rs:80 | 31415926 over "abcdefghijklmnop" encodes to "ghofpnb" |
| Gibbercode.AlphabetsWellFormed | src/lib.rs:30-31 | 5 distinct vowels and 17 distinct consonants, with no byte in both; neither alphabet holds 'h', 'e' or '-' |
| Gibbercode.ConsonantAt | src/lib.rs:37 | no contract of its own: consonant digit i, or 'h' past the end; described by Gibbercode.SyllableBytes |
| Gibbercode.VowelAt | src/lib.rs:38 | no contract of its own: vowel digit i, or 'e' past the end; described by Gibbercode.SyllableBytes |
| Gibbercode.Syllable | src/lib.rs:39-46 | no contract of its own: syllable i is consonant 2i, vowel i, consonant 2i+1, each padded; described by Gibbercode.SyllableBytes and Gibbercode.SyllableIsHeh |
| Gibbercode.Syllables | src/lib.rs:37-47 | no contract of its own: the syllable stream up to the first "heh"; described by Gibbercode.SyllablesShape, Gibbercode.KeepSyllablesConsonants and Gibbercode.KeepSyllablesVowels |
| Gibbercode.SyllableBytes | src/lib.rs:37-46 | each syllable is consonant-or-'h', vowel-or-'e', consonant-or-'h' |
| Gibbercode.SyllableIsHeh | src/lib.rs:37-47 | syllable i is "heh" if and only if both the consonant digits (two per syllable) and the vowel digits are used up |
| Gibbercode.SyllablesShape | src/lib.rs:37-47 | the stream holds exactly max(ceil(consonants/2), vowels) syllables; the k-th is the k-th padded syllable, and none of them is "heh" |
| Gibbercode.RemoveHH | src/lib.rs:50 | deleting "hh" never lengthens a word; a leading byte other than 'h' stays first; the result holds no "hh" |
| Gibbercode.RemoveHHFrom | src/lib.rs:50 | every byte of the result comes from the word: deleting "hh" adds nothing |
| Gibbercode.RemoveHHWithoutPair | src/lib.rs:50 | a word without "hh" is left unchanged, so a lone 'h' survives |
| Gibbercode.RemoveHHCancel | src/lib.rs:50 | inserting "hh" anywhere in a word does not change the result (only the parity of each run of 'h' matters); with the two rows above this fixes the result on every word |
| Gibbercode.Words | src/lib.rs:48-50 | n syllables make ceil(n/2) words |
| Gibbercode.WordsAt | src/lib.rs:48-50 | word k is syllables 2k and 2k+1 run together (syllable 2k alone for the last word of an odd count), with "hh" removed |
| Gibbercode.Join | src/lib.rs:51 | the joined text is as long as the words together plus one byte per gap between neighbouring words; Gibbercode.JoinPlacesWords and Gibbercode.JoinPlacesHyphens say where those bytes go |
| Gibbercode.JoinPlacesWords | src/lib.rs:51 | word k appears unchanged in the joined text at offset (length of the words before it) + k |
| Gibbercode.JoinPlacesHyphens | src/lib.rs:51 | the byte just before every word but the first is a hyphen, so hyphens sit exactly between neighbouring words |
| Gibbercode.ThreeSyllableWords | src/lib.rs:48-51 | three syllables without 'h' make two words, the first pair and the odd one out, joined by one hyphen |
| Gibbercode.Encode | src/lib.rs:34-52 | no contract of its own: digits, syllables, words and join composed as in the Rust crate; described by Gibbercode.EncodeStreams, Gibbercode.RoundTrip, Gibbercode.EncodeWireFormat and Gibbercode.EncodeEmpty |
| Gibbercode.Decode | src/lib.rs:55-71 | no contract of its own: both filters and both stream decodes; described by Gibbercode.RoundTrip, Gibbercode.DecodeIgnoresNoise and Gibbercode.DecodeWithoutLetters |
| Gibbercode.Keep | src/lib.rs:57-66 | the filtered stream holds only alphabet bytes and is no longer than the text |
| Gibbercode.KeepAppend | src/lib.rs:57-66 | filtering distributes over concatenation |
| Gibbercode.KeepNone | src/lib.rs:57-66 | a text without alphabet bytes filters to the empty stream |
| Gibbercode.KeepRemoveHH | src/lib.rs:50 | deleting "hh" removes no byte of an alphabet that lacks 'h' |
| Gibbercode.KeepJoin | src/lib.rs:51 | the hyphens of the join add no byte of an alphabet that lacks '-' |
| Gibbercode.KeepWords | src/lib.rs:48-50 | grouping into words and deleting "hh" keep every byte of an alphabet that lacks 'h', in order |
| Gibbercode.KeepSyllablesConsonants | src/lib.rs:37-47 | the syllable stream carries every consonant digit, in order, and nothing else from that alphabet |
| Gibbercode.KeepSyllablesVowels | src/lib.rs:37-47 | the syllable stream carries every vowel digit, in order, and nothing else from that alphabet |
| Gibbercode.EncodeStreams | src/lib.rs:34-51 | the consonants of encode(major, minor), read left to right, are encode_with_alphabet(major, CONSONANTS); its vowels are encode_with_alphabet(minor, VOWELS) |
| Gibbercode.EncodeEmpty | src/lib.rs:34-52 | encode gives the empty string if and only if both numbers are 0 |
| Gibbercode.EncodeWireFormat | src/lib.rs:34-51 | every byte encode writes is a consonant, a vowel, 'h', 'e' or '-' |
| Gibbercode.RoundTrip | src/lib.rs:34-70 | decode(encode(major, minor)) == (major, minor) for every pair of u128 values |
| Gibbercode.DecodeIgnoresNoise | src/lib.rs:54-70 | inserting bytes that are neither consonants nor vowels anywhere in the text leaves the decoded pair unchanged |
| Gibbercode.DecodeWithoutLetters | src/lib.rs:54-70 | a text without consonants and vowels (the empty string included) decodes to (0, 0) |
| Gibbercode.FullExampleConsonants | src/lib.rs:35 | the consonant digits of 23242151 are "nrltnq" |
| Gibbercode.FullExampleVowels | src/lib.rs:36 | the vowel digits of 123 are "uyy" |
| Gibbercode.FullExampleSyllables | src/lib.rs:37-47 | those digits make the syllables "nur", "lyt", "nyq" |
| Gibbercode.EncodeFullExample | src/lib.rs:85 | encode(23242151, 123) == "nurlyt-nyq" |
| Gibbercode.EncodePadExample | src/lib.rs:34-51 | encode(1, 6) == "giih": the syllables "gih" and "hih" form the word "gihhih", which loses its "hh" but keeps the lone last 'h' |
| Gibbercode.DecodeFullExample | src/lib.rs:90 | decode("nurlyt-nyq") == (23242151, 123) |

## Left out

- Strings are byte sequences.
  - Radix.EncodeWithAlphabet returns the pushed bytes, not the result of `String::from_utf8_lossy`. This is the same thing for ASCII alphabets, and both alphabets of gibbercode are ASCII.
  - Gibbercode.Decode takes the UTF-8 bytes of its `&str` argument, as `as_bytes` does.
- Radix.EncodeWithAlphabet requires a value of 0 or an alphabet of at least two bytes. With an empty alphabet the loop divides by zero, which panics. With a one-byte alphabet it never ends. Neither case is modelled as behaviour.
- Radix.DecodeWithAlphabet requires every byte to be in the alphabet. The Rust crate panics at the table lookup otherwise. `decode` always meets this requirement by filtering first.
- The `HashMap` is modelled as `Radix.Lookup`, an index search from the back. It gives the same answer as the table for any alphabet. Hashing is not modelled.
- The lazy iterators of `encode` (`repeat`, `chunks`, `zip`, `take_while`) are modelled as recursion with "digit or pad" accessors. The stream is cut at the first "heh", as the Rust crate does.
- The test module itself is not modelled. Its three cases are stated as lemmas.
