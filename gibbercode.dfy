/** Gibbercode: a pair of u128 numbers written as pronounceable
    consonant-vowel-consonant syllables, two syllables to a word, words joined
    by hyphens; and read back from any text by keeping only its consonants
    and its vowels. */
module Gibbercode {
  import opened Radix

  /** The vowel alphabet (base 5), in digit order. */
  const VOWELS: seq<Byte> := ['a' as Byte, 'i' as Byte, 'o' as Byte, 'u' as Byte, 'y' as Byte]

  /** The consonant alphabet (base 17), in digit order. */
  const CONSONANTS: seq<Byte> :=
    ['k' as Byte, 'g' as Byte, 's' as Byte, 'z' as Byte, 't' as Byte, 'd' as Byte,
     'n' as Byte, 'p' as Byte, 'b' as Byte, 'm' as Byte, 'j' as Byte, 'r' as Byte,
     'l' as Byte, 'w' as Byte, 'v' as Byte, 'x' as Byte, 'q' as Byte]

  /** What follows the consonant digits without end. */
  const CONSONANT_PAD: Byte := 'h' as Byte

  /** What follows the vowel digits without end. */
  const VOWEL_PAD: Byte := 'e' as Byte

  /** The word separator. */
  const HYPHEN: Byte := '-' as Byte

  /** The all-padding syllable that ends the syllable stream. */
  const HEH: seq<Byte> := [CONSONANT_PAD, VOWEL_PAD, CONSONANT_PAD]

  // The facts about the two alphabets are proved in four small lemmas and
  // gathered in AlphabetsWellFormed; the split only keeps each proof small
  // for the solver.

  lemma VowelsDistinct()
    ensures |VOWELS| == 5 && Distinct(VOWELS)
  {
  }

  lemma ConsonantsDistinct()
    ensures |CONSONANTS| == 17 && Distinct(CONSONANTS)
  {
  }

  lemma AlphabetsDisjoint()
    ensures forall c | c in VOWELS :: c !in CONSONANTS
  {
  }

  lemma ReservedBytes()
    ensures CONSONANT_PAD !in CONSONANTS && CONSONANT_PAD !in VOWELS
    ensures VOWEL_PAD !in CONSONANTS && VOWEL_PAD !in VOWELS
    ensures HYPHEN !in CONSONANTS && HYPHEN !in VOWELS
  {
  }

  /** Both alphabets are digit tables the radix codec round-trips on, they
      share no byte, and neither contains a pad byte or the hyphen. */
  lemma AlphabetsWellFormed()
    ensures |VOWELS| == 5 && Distinct(VOWELS)
    ensures |CONSONANTS| == 17 && Distinct(CONSONANTS)
    ensures forall c | c in VOWELS :: c !in CONSONANTS
    ensures CONSONANT_PAD !in CONSONANTS && CONSONANT_PAD !in VOWELS
    ensures VOWEL_PAD !in CONSONANTS && VOWEL_PAD !in VOWELS
    ensures HYPHEN !in CONSONANTS && HYPHEN !in VOWELS
  {
    VowelsDistinct();
    ConsonantsDistinct();
    AlphabetsDisjoint();
    ReservedBytes();
  }

  // ---------------------------------------------------------------------
  // Encoding

  /** The i-th byte of the consonant digits followed by endless 'h'. */
  function ConsonantAt(c: seq<Byte>, i: nat): Byte {
    if i < |c| then c[i] else CONSONANT_PAD
  }

  /** The i-th byte of the vowel digits followed by endless 'e'. */
  function VowelAt(v: seq<Byte>, i: nat): Byte {
    if i < |v| then v[i] else VOWEL_PAD
  }

  /** Syllable i: the i-th pair of padded consonants around the i-th padded vowel. */
  function Syllable(c: seq<Byte>, v: seq<Byte>, i: nat): seq<Byte> {
    [ConsonantAt(c, 2 * i), VowelAt(v, i), ConsonantAt(c, 2 * i + 1)]
  }

  /** The syllables from the i-th on, up to (and without) the first "heh".
      Past both digit strings every syllable is "heh", so the stream is finite. */
  function Syllables(c: seq<Byte>, v: seq<Byte>, i: nat): seq<seq<Byte>>
    decreases |c| + |v| - i
  {
    if Syllable(c, v, i) == HEH then [] else [Syllable(c, v, i)] + Syllables(c, v, i + 1)
  }

  /** `str::replace("hh", "")`: scanning from the left, every occurrence of
      "hh" that does not overlap an earlier one is deleted. */
  function RemoveHH(s: seq<Byte>): (r: seq<Byte>)
    ensures |r| <= |s|
    ensures s != [] && s[0] != CONSONANT_PAD ==> r != [] && r[0] == s[0]
    ensures NoPadPair(r)
  {
    if s == [] then []
    else if |s| >= 2 && s[0] == CONSONANT_PAD && s[1] == CONSONANT_PAD then RemoveHH(s[2..])
    else [s[0]] + RemoveHH(s[1..])
  }

  /** No two neighbouring bytes of `s` are both 'h'. */
  predicate NoPadPair(s: seq<Byte>) {
    forall i | 0 <= i < |s| - 1 :: !(s[i] == CONSONANT_PAD && s[i + 1] == CONSONANT_PAD)
  }

  /** Deleting "hh" adds no byte: every byte of the result comes from the text. */
  lemma {:induction false} RemoveHHFrom(s: seq<Byte>)
    ensures forall i | 0 <= i < |RemoveHH(s)| :: RemoveHH(s)[i] in s
    decreases |s|
  {
    if |s| >= 2 && s[0] == CONSONANT_PAD && s[1] == CONSONANT_PAD {
      RemoveHHFrom(s[2..]);
      forall i | 0 <= i < |RemoveHH(s)| ensures RemoveHH(s)[i] in s {
        assert RemoveHH(s)[i] in s[2..];
      }
    } else if s != [] {
      RemoveHHFrom(s[1..]);
      var r := RemoveHH(s);
      assert r == [s[0]] + RemoveHH(s[1..]);
      forall i | 0 <= i < |r| ensures r[i] in s {
        if i > 0 {
          assert r[i] in s[1..];
        }
      }
    }
  }

  /** One step of `RemoveHH` where the text does not start with "hh". */
  lemma RemoveHHKeeps(s: seq<Byte>)
    requires s != [] && !(|s| >= 2 && s[0] == CONSONANT_PAD && s[1] == CONSONANT_PAD)
    ensures RemoveHH(s) == [s[0]] + RemoveHH(s[1..])
  {
  }

  /** One step of `RemoveHH` where the text starts with "hh". */
  lemma RemoveHHSkips(s: seq<Byte>)
    requires |s| >= 2 && s[0] == CONSONANT_PAD && s[1] == CONSONANT_PAD
    ensures RemoveHH(s) == RemoveHH(s[2..])
  {
  }

  /** A string without "hh" is left as it is: a lone 'h' survives. */
  lemma {:induction false} RemoveHHWithoutPair(s: seq<Byte>)
    requires NoPadPair(s)
    ensures RemoveHH(s) == s
    decreases |s|
  {
    if s != [] {
      var tail := s[1..];
      assert |s| >= 2 ==> !(s[0] == CONSONANT_PAD && s[1] == CONSONANT_PAD);
      RemoveHHKeeps(s);
      assert NoPadPair(tail) by {
        forall i | 0 <= i < |tail| - 1
          ensures !(tail[i] == CONSONANT_PAD && tail[i + 1] == CONSONANT_PAD)
        {
          assert tail[i] == s[i + 1] && tail[i + 1] == s[i + 2];
        }
      }
      RemoveHHWithoutPair(tail);
      assert s == [s[0]] + tail;
    }
  }

  /** A string without 'h' has no "hh" either. */
  lemma NoPadNoPair(s: seq<Byte>)
    requires CONSONANT_PAD !in s
    ensures NoPadPair(s)
  {
    forall i | 0 <= i < |s| - 1
      ensures !(s[i] == CONSONANT_PAD && s[i + 1] == CONSONANT_PAD)
    {
      assert s[i] in s;
    }
  }

  /** "hh" at the front is deleted. */
  lemma CancelAtFront(y: seq<Byte>)
    ensures RemoveHH([CONSONANT_PAD, CONSONANT_PAD] + y) == RemoveHH(y)
  {
    var with := [CONSONANT_PAD, CONSONANT_PAD] + y;
    assert with[2..] == y;
    RemoveHHSkips(with);
  }

  /** The step of `RemoveHHCancel` where `x` starts with "hh". */
  lemma CancelSkip(x: seq<Byte>, y: seq<Byte>)
    requires |x| >= 2 && x[0] == CONSONANT_PAD && x[1] == CONSONANT_PAD
    requires RemoveHH(x[2..] + [CONSONANT_PAD, CONSONANT_PAD] + y) == RemoveHH(x[2..] + y)
    ensures RemoveHH(x + [CONSONANT_PAD, CONSONANT_PAD] + y) == RemoveHH(x + y)
  {
    var with, without := x + [CONSONANT_PAD, CONSONANT_PAD] + y, x + y;
    assert with[0] == x[0] && with[1] == x[1] && with[2..] == x[2..] + [CONSONANT_PAD, CONSONANT_PAD] + y;
    assert without[0] == x[0] && without[1] == x[1] && without[2..] == x[2..] + y;
    RemoveHHSkips(with);
    RemoveHHSkips(without);
  }

  /** The head and tail of a concatenation with a non-empty front. */
  lemma SplitFront(x: seq<Byte>, z: seq<Byte>)
    requires x != []
    ensures (x + z)[0] == x[0] && (x + z)[1..] == x[1..] + z
    ensures |x| >= 2 ==> (x + z)[1] == x[1]
  {
  }

  /** The step of `RemoveHHCancel` where the first byte of `x` is kept on both sides. */
  lemma CancelKeep(x: seq<Byte>, y: seq<Byte>)
    requires x != [] && !(|x| >= 2 && x[0] == CONSONANT_PAD && x[1] == CONSONANT_PAD)
    requires !(|x| == 1 && x[0] == CONSONANT_PAD)
    requires RemoveHH(x[1..] + [CONSONANT_PAD, CONSONANT_PAD] + y) == RemoveHH(x[1..] + y)
    ensures RemoveHH(x + [CONSONANT_PAD, CONSONANT_PAD] + y) == RemoveHH(x + y)
  {
    var z := [CONSONANT_PAD, CONSONANT_PAD] + y;
    assert x + [CONSONANT_PAD, CONSONANT_PAD] + y == x + z;
    assert x[1..] + [CONSONANT_PAD, CONSONANT_PAD] + y == x[1..] + z;
    SplitFront(x, z);
    SplitFront(x, y);
    RemoveHHKeeps(x + z);
    RemoveHHKeeps(x + y);
  }

  /** Inserting "hh" anywhere does not change the result: within a run of
      'h' only the parity of its length matters. */
  lemma {:induction false} RemoveHHCancel(x: seq<Byte>, y: seq<Byte>)
    ensures RemoveHH(x + [CONSONANT_PAD, CONSONANT_PAD] + y) == RemoveHH(x + y)
    decreases |x|
  {
    if x == [] {
      assert x + [CONSONANT_PAD, CONSONANT_PAD] + y == [CONSONANT_PAD, CONSONANT_PAD] + y;
      assert x + y == y;
      CancelAtFront(y);
    } else if |x| >= 2 && x[0] == CONSONANT_PAD && x[1] == CONSONANT_PAD {
      RemoveHHCancel(x[2..], y);
      CancelSkip(x, y);
    } else if |x| == 1 && x[0] == CONSONANT_PAD {
      assert x + [CONSONANT_PAD, CONSONANT_PAD] + y == [CONSONANT_PAD, CONSONANT_PAD] + (x + y);
      CancelAtFront(x + y);
    } else {
      RemoveHHCancel(x[1..], y);
      CancelKeep(x, y);
    }
  }

  /** Syllables grouped two to a word (the last word may hold one), each word
      with its "hh" removed. */
  function Words(syllables: seq<seq<Byte>>): (r: seq<seq<Byte>>)
    ensures |r| == (|syllables| + 1) / 2
  {
    if syllables == [] then []
    else if |syllables| == 1 then [RemoveHH(syllables[0])]
    else [RemoveHH(syllables[0] + syllables[1])] + Words(syllables[2..])
  }

  /** Word k is made of syllables 2k and 2k + 1 (the last word of an odd
      count of syllable 2k alone), with "hh" removed. */
  lemma {:induction false} WordsAt(syllables: seq<seq<Byte>>, k: nat)
    requires k < (|syllables| + 1) / 2
    ensures Words(syllables)[k] == RemoveHH(Flatten(syllables[2 * k..Min(2 * k + 2, |syllables|)]))
    decreases k
  {
    if |syllables| == 1 {
      assert syllables[0..1] == [syllables[0]];
      FlattenOne(syllables[0]);
    } else if k == 0 {
      assert syllables[0..2] == [syllables[0], syllables[1]];
      FlattenPair(syllables[0], syllables[1]);
    } else {
      var rest := syllables[2..];
      WordsAt(rest, k - 1);
      assert Words(syllables)[k] == Words(rest)[k - 1];
      assert rest[2 * (k - 1)..Min(2 * (k - 1) + 2, |rest|)]
          == syllables[2 * k..Min(2 * k + 2, |syllables|)];
    }
  }

  /** The words separated by hyphens: every byte of every word, plus one
      hyphen between each two neighbouring words. */
  function Join(words: seq<seq<Byte>>): (r: seq<Byte>)
    ensures |r| == |Flatten(words)| + (if words == [] then 0 else |words| - 1)
  {
    if words == [] then []
    else if |words| == 1 then words[0]
    else words[0] + [HYPHEN] + Join(words[1..])
  }

  /** `encode`: the consonant digits of `major` and the vowel digits of
      `minor`, woven into syllables and words. */
  function Encode(major: U128, minor: U128): seq<Byte> {
    Join(Words(Syllables(Digits(major, CONSONANTS), Digits(minor, VOWELS), 0)))
  }

  // ---------------------------------------------------------------------
  // Decoding

  /** The bytes of `s` that belong to `alphabet`, in their order in `s`. */
  function Keep(s: seq<Byte>, alphabet: seq<Byte>): (r: seq<Byte>)
    ensures AllIn(r, alphabet)
    ensures |r| <= |s|
  {
    if s == [] then []
    else (if s[0] in alphabet then [s[0]] else []) + Keep(s[1..], alphabet)
  }

  /** `decode`: the consonants and the vowels of the text, each read back
      through its own alphabet; every other byte is ignored. */
  function Decode(gibber: seq<Byte>): (U128, U128) {
    var vowels := Keep(gibber, VOWELS);
    var consonants := Keep(gibber, CONSONANTS);
    (DecodeWithAlphabet(consonants, CONSONANTS), DecodeWithAlphabet(vowels, VOWELS))
  }

  // ---------------------------------------------------------------------
  // Filtering through the pipeline

  function Flatten(parts: seq<seq<Byte>>): seq<Byte> {
    if parts == [] then [] else parts[0] + Flatten(parts[1..])
  }

  lemma FlattenOne(a: seq<Byte>)
    ensures Flatten([a]) == a
  {
    assert [a][1..] == [];
  }

  lemma FlattenPair(a: seq<Byte>, b: seq<Byte>)
    ensures Flatten([a, b]) == a + b
  {
    assert [a, b][1..] == [b];
    FlattenOne(b);
  }

  function Min(x: int, y: int): int {
    if x <= y then x else y
  }

  /** Filtering distributes over concatenation. */
  lemma {:induction false} KeepAppend(s: seq<Byte>, t: seq<Byte>, alphabet: seq<Byte>)
    ensures Keep(s + t, alphabet) == Keep(s, alphabet) + Keep(t, alphabet)
    decreases |s|
  {
    if s != [] {
      assert (s + t)[0] == s[0] && (s + t)[1..] == s[1..] + t;
      KeepAppend(s[1..], t, alphabet);
      var head := if s[0] in alphabet then [s[0]] else [];
      assert Keep(s + t, alphabet) == head + (Keep(s[1..], alphabet) + Keep(t, alphabet));
      assert Keep(s, alphabet) == head + Keep(s[1..], alphabet);
    } else {
      assert s + t == t;
    }
  }

  /** A string with no byte of the alphabet filters to nothing. */
  lemma {:induction false} KeepNone(s: seq<Byte>, alphabet: seq<Byte>)
    requires forall i | 0 <= i < |s| :: s[i] !in alphabet
    ensures Keep(s, alphabet) == []
    decreases |s|
  {
    if s != [] {
      KeepNone(s[1..], alphabet);
    }
  }

  /** Removing "hh" deletes only pad bytes, so any alphabet without 'h' sees the same bytes. */
  lemma {:induction false} KeepRemoveHH(s: seq<Byte>, alphabet: seq<Byte>)
    requires CONSONANT_PAD !in alphabet
    ensures Keep(RemoveHH(s), alphabet) == Keep(s, alphabet)
    decreases |s|
  {
    if s == [] {
    } else if |s| >= 2 && s[0] == CONSONANT_PAD && s[1] == CONSONANT_PAD {
      KeepRemoveHH(s[2..], alphabet);
      assert s == [s[0], s[1]] + s[2..];
      KeepAppend([s[0], s[1]], s[2..], alphabet);
    } else {
      KeepRemoveHH(s[1..], alphabet);
      KeepAppend([s[0]], RemoveHH(s[1..]), alphabet);
    }
  }

  /** Where word k starts in the joined text: after the words before it and
      one hyphen per word before it. */
  function Offset(words: seq<seq<Byte>>, k: nat): nat
    requires k <= |words|
  {
    |Flatten(words[..k])| + k
  }

  /** Past the first word, offsets move by that word and its hyphen. */
  lemma OffsetStep(words: seq<seq<Byte>>, k: nat)
    requires 0 < k <= |words|
    ensures Offset(words, k) == |words[0]| + 1 + Offset(words[1..], k - 1)
  {
    assert words[..k][0] == words[0];
    assert words[..k][1..] == words[1..][..k - 1];
  }

  /** The layout of `join("-")`, words: word k sits at Offset(words, k). */
  lemma {:induction false} JoinPlacesWords(words: seq<seq<Byte>>)
    ensures forall k | 0 <= k < |words| ::
              Offset(words, k) + |words[k]| <= |Join(words)| &&
              Join(words)[Offset(words, k)..Offset(words, k) + |words[k]|] == words[k]
    decreases |words|
  {
    if |words| == 1 {
      assert words[..0] == [];
    } else if |words| > 1 {
      var w, rest := words[0], words[1..];
      var head, tail := w + [HYPHEN], Join(rest);
      assert Join(words) == head + tail;
      JoinPlacesWords(rest);
      forall k | 0 <= k < |words|
        ensures Offset(words, k) + |words[k]| <= |head + tail|
        ensures (head + tail)[Offset(words, k)..Offset(words, k) + |words[k]|] == words[k]
      {
        if k == 0 {
          assert words[..0] == [];
          assert (head + tail)[..|w|] == w;
        } else {
          OffsetStep(words, k);
          var o, n := Offset(rest, k - 1), |rest[k - 1]|;
          assert words[k] == rest[k - 1];
          assert (head + tail)[|head| + o..|head| + o + n] == tail[o..o + n];
        }
      }
    }
  }

  /** The layout of `join("-")`, separators: the byte just before every word
      but the first is a hyphen. */
  lemma {:induction false} JoinPlacesHyphens(words: seq<seq<Byte>>)
    ensures forall k | 0 < k < |words| ::
              Offset(words, k) <= |Join(words)| && Join(words)[Offset(words, k) - 1] == HYPHEN
    decreases |words|
  {
    if |words| > 1 {
      var w, rest := words[0], words[1..];
      var head, tail := w + [HYPHEN], Join(rest);
      assert Join(words) == head + tail;
      JoinPlacesHyphens(rest);
      forall k | 0 < k < |words|
        ensures Offset(words, k) <= |head + tail| && (head + tail)[Offset(words, k) - 1] == HYPHEN
      {
        OffsetStep(words, k);
        if k > 1 {
          var o := Offset(rest, k - 1);
          assert (head + tail)[|head| + o - 1] == tail[o - 1];
        }
      }
    }
  }

  /** Hyphens are not in the alphabet, so joining words only concatenates what is kept. */
  lemma {:induction false} KeepJoin(words: seq<seq<Byte>>, alphabet: seq<Byte>)
    requires HYPHEN !in alphabet
    ensures Keep(Join(words), alphabet) == Keep(Flatten(words), alphabet)
    decreases |words|
  {
    if |words| == 1 {
      assert words[1..] == [];
      assert Flatten(words) == words[0];
    } else if |words| > 1 {
      KeepJoin(words[1..], alphabet);
      KeepAppend(words[0] + [HYPHEN], Join(words[1..]), alphabet);
      KeepAppend(words[0], [HYPHEN], alphabet);
      KeepAppend(words[0], Flatten(words[1..]), alphabet);
    }
  }

  /** Grouping into words and removing "hh" keeps every byte of an alphabet without 'h'. */
  lemma {:induction false} KeepWords(syllables: seq<seq<Byte>>, alphabet: seq<Byte>)
    requires CONSONANT_PAD !in alphabet
    ensures Keep(Flatten(Words(syllables)), alphabet) == Keep(Flatten(syllables), alphabet)
    decreases |syllables|
  {
    if |syllables| == 1 {
      KeepRemoveHH(syllables[0], alphabet);
      assert syllables[1..] == [] && Words(syllables)[1..] == [];
      assert Flatten(Words(syllables)) == RemoveHH(syllables[0]);
      assert Flatten(syllables) == syllables[0];
    } else if |syllables| > 1 {
      var first, rest := syllables[0] + syllables[1], syllables[2..];
      KeepWords(rest, alphabet);
      KeepRemoveHH(first, alphabet);
      assert Flatten(syllables) == first + Flatten(rest) by {
        assert syllables[1..][1..] == rest;
      }
      KeepAppend(RemoveHH(first), Flatten(Words(rest)), alphabet);
      KeepAppend(first, Flatten(rest), alphabet);
    }
  }

  /** Digit alphabets the syllable layout can carry: they share no byte and
      neither holds a pad byte. */
  predicate LayoutAlphabets(ca: seq<Byte>, va: seq<Byte>) {
    CONSONANT_PAD !in ca && VOWEL_PAD !in ca && CONSONANT_PAD !in va && VOWEL_PAD !in va &&
    forall b | b in va :: b !in ca
  }

  /** The two alphabets of gibbercode can be laid out in syllables. */
  lemma GibbercodeLayout()
    ensures LayoutAlphabets(CONSONANTS, VOWELS)
  {
    AlphabetsWellFormed();
  }

  /** Filtering three bytes keeps each of them that is in the alphabet, in order. */
  lemma KeepTriple(x: Byte, y: Byte, z: Byte, alphabet: seq<Byte>)
    ensures Keep([x, y, z], alphabet)
         == (if x in alphabet then [x] else []) + (if y in alphabet then [y] else [])
          + (if z in alphabet then [z] else [])
  {
    var kx, ky, kz := if x in alphabet then [x] else [], if y in alphabet then [y] else [],
                      if z in alphabet then [z] else [];
    assert [z][1..] == [];
    assert Keep([z], alphabet) == kz + Keep([], alphabet);
    assert [y, z][1..] == [z];
    assert Keep([y, z], alphabet) == ky + Keep([z], alphabet);
    assert [x, y, z][1..] == [y, z];
    assert Keep([x, y, z], alphabet) == kx + Keep([y, z], alphabet);
  }

  /** What a single syllable contributes to the consonant stream. */
  lemma SyllableConsonantPart(c: seq<Byte>, v: seq<Byte>, i: nat, ca: seq<Byte>, va: seq<Byte>)
    requires LayoutAlphabets(ca, va) && AllIn(c, ca) && AllIn(v, va)
    ensures Keep(Syllable(c, v, i), ca) == c[Min(2 * i, |c|)..Min(2 * i + 2, |c|)]
  {
    var x, y, z := ConsonantAt(c, 2 * i), VowelAt(v, i), ConsonantAt(c, 2 * i + 1);
    KeepTriple(x, y, z, ca);
    assert x in ca <==> 2 * i < |c|;
    assert z in ca <==> 2 * i + 1 < |c|;
    assert y !in ca;
  }

  /** What a single syllable contributes to the vowel stream. */
  lemma SyllableVowelPart(c: seq<Byte>, v: seq<Byte>, i: nat, ca: seq<Byte>, va: seq<Byte>)
    requires LayoutAlphabets(ca, va) && AllIn(c, ca) && AllIn(v, va)
    ensures Keep(Syllable(c, v, i), va) == v[Min(i, |v|)..Min(i + 1, |v|)]
  {
    var x, y, z := ConsonantAt(c, 2 * i), VowelAt(v, i), ConsonantAt(c, 2 * i + 1);
    KeepTriple(x, y, z, va);
    assert y in va <==> i < |v|;
    assert x !in va && z !in va;
  }

  /** A syllable is "heh" exactly when both digit strings are used up. */
  lemma SyllableIsHeh(c: seq<Byte>, v: seq<Byte>, i: nat)
    requires CONSONANT_PAD !in c && VOWEL_PAD !in v
    ensures Syllable(c, v, i) == HEH <==> 2 * i >= |c| && i >= |v|
  {
    if 2 * i < |c| {
      assert c[2 * i] in c;
    }
    if i < |v| {
      assert v[i] in v;
    }
  }

  /** The syllable stream from syllable i on carries every remaining
      consonant digit, in order. */
  lemma {:induction false} KeepSyllablesConsonants(c: seq<Byte>, v: seq<Byte>, i: nat, ca: seq<Byte>, va: seq<Byte>)
    requires LayoutAlphabets(ca, va) && AllIn(c, ca) && AllIn(v, va)
    ensures Keep(Flatten(Syllables(c, v, i)), ca) == c[Min(2 * i, |c|)..]
    decreases |c| + |v| - i
  {
    SyllableIsHeh(c, v, i);
    if Syllable(c, v, i) != HEH {
      var syl, rest := Syllable(c, v, i), Syllables(c, v, i + 1);
      assert Flatten(Syllables(c, v, i)) == syl + Flatten(rest);
      KeepSyllablesConsonants(c, v, i + 1, ca, va);
      SyllableConsonantPart(c, v, i, ca, va);
      KeepAppend(syl, Flatten(rest), ca);
      assert c[Min(2 * i, |c|)..] == c[Min(2 * i, |c|)..Min(2 * i + 2, |c|)] + c[Min(2 * i + 2, |c|)..];
    }
  }

  /** The syllable stream from syllable i on carries every remaining vowel
      digit, in order. */
  lemma {:induction false} KeepSyllablesVowels(c: seq<Byte>, v: seq<Byte>, i: nat, ca: seq<Byte>, va: seq<Byte>)
    requires LayoutAlphabets(ca, va) && AllIn(c, ca) && AllIn(v, va)
    ensures Keep(Flatten(Syllables(c, v, i)), va) == v[Min(i, |v|)..]
    decreases |c| + |v| - i
  {
    SyllableIsHeh(c, v, i);
    if Syllable(c, v, i) != HEH {
      var syl, rest := Syllable(c, v, i), Syllables(c, v, i + 1);
      assert Flatten(Syllables(c, v, i)) == syl + Flatten(rest);
      KeepSyllablesVowels(c, v, i + 1, ca, va);
      SyllableVowelPart(c, v, i, ca, va);
      KeepAppend(syl, Flatten(rest), va);
      assert v[Min(i, |v|)..] == v[Min(i, |v|)..Min(i + 1, |v|)] + v[Min(i + 1, |v|)..];
    }
  }

  /** How many syllables two digit strings need: one per pair of consonants
      and one per vowel, whichever is more. */
  function SyllableCount(c: seq<Byte>, v: seq<Byte>): nat {
    if (|c| + 1) / 2 >= |v| then (|c| + 1) / 2 else |v|
  }

  /** Syllables are emitted while a real digit remains: the stream from i
      holds exactly syllables i .. SyllableCount - 1, and none of them is "heh". */
  lemma {:induction false} SyllablesShape(c: seq<Byte>, v: seq<Byte>, i: nat)
    requires CONSONANT_PAD !in c && VOWEL_PAD !in v
    ensures |Syllables(c, v, i)| == if i <= SyllableCount(c, v) then SyllableCount(c, v) - i else 0
    ensures forall k | 0 <= k < |Syllables(c, v, i)| ::
              Syllables(c, v, i)[k] == Syllable(c, v, i + k) && Syllables(c, v, i)[k] != HEH
    decreases |c| + |v| - i
  {
    SyllableIsHeh(c, v, i);
    if Syllable(c, v, i) != HEH {
      SyllablesShape(c, v, i + 1);
      var r, rest := Syllables(c, v, i), Syllables(c, v, i + 1);
      assert r == [Syllable(c, v, i)] + rest;
      forall k | 0 <= k < |r|
        ensures r[k] == Syllable(c, v, i + k)
      {
        if k > 0 {
          assert r[k] == rest[k - 1];
        }
      }
    }
  }

  /** Each syllable is consonant-or-'h', vowel-or-'e', consonant-or-'h'. */
  lemma SyllableBytes(c: seq<Byte>, v: seq<Byte>, i: nat)
    ensures |Syllable(c, v, i)| == 3
    ensures Syllable(c, v, i)[0] in c || Syllable(c, v, i)[0] == CONSONANT_PAD
    ensures Syllable(c, v, i)[1] in v || Syllable(c, v, i)[1] == VOWEL_PAD
    ensures Syllable(c, v, i)[2] in c || Syllable(c, v, i)[2] == CONSONANT_PAD
  {
  }

  // ---------------------------------------------------------------------
  // Properties of encode and decode

  /** Read left to right, the consonants of the output are the base-17 digits
      of `major` and its vowels the base-5 digits of `minor`. */
  lemma EncodeStreams(major: U128, minor: U128)
    ensures Keep(Encode(major, minor), CONSONANTS) == Digits(major, CONSONANTS)
    ensures Keep(Encode(major, minor), VOWELS) == Digits(minor, VOWELS)
  {
    AlphabetsWellFormed();
    var c, v := Digits(major, CONSONANTS), Digits(minor, VOWELS);
    var syllables := Syllables(c, v, 0);
    KeepJoin(Words(syllables), CONSONANTS);
    KeepJoin(Words(syllables), VOWELS);
    KeepWords(syllables, CONSONANTS);
    KeepWords(syllables, VOWELS);
    GibbercodeLayout();
    KeepSyllablesConsonants(c, v, 0, CONSONANTS, VOWELS);
    KeepSyllablesVowels(c, v, 0, CONSONANTS, VOWELS);
  }

  /** Only the pair (0, 0) encodes to the empty string. */
  lemma EncodeEmpty(major: U128, minor: U128)
    ensures Encode(major, minor) == [] <==> major == 0 && minor == 0
  {
    EncodeStreams(major, minor);
    if major == 0 && minor == 0 {
      assert Syllable([], [], 0) == HEH;
    }
  }

  /** The bytes a gibbercode string is made of: consonant digits, vowel
      digits, the two pad bytes and the hyphen. */
  predicate WireByte(b: Byte, ca: seq<Byte>, va: seq<Byte>) {
    b in ca || b in va || b == CONSONANT_PAD || b == VOWEL_PAD || b == HYPHEN
  }

  predicate AllWire(parts: seq<seq<Byte>>, ca: seq<Byte>, va: seq<Byte>) {
    forall k, i | 0 <= k < |parts| && 0 <= i < |parts[k]| :: WireByte(parts[k][i], ca, va)
  }

  lemma {:induction false} WordsWire(syllables: seq<seq<Byte>>, ca: seq<Byte>, va: seq<Byte>)
    requires AllWire(syllables, ca, va)
    ensures AllWire(Words(syllables), ca, va)
    decreases |syllables|
  {
    if |syllables| > 1 {
      WordsWire(syllables[2..], ca, va);
      var first := syllables[0] + syllables[1];
      forall i | 0 <= i < |first| ensures WireByte(first[i], ca, va) {
        if i >= |syllables[0]| {
          assert first[i] == syllables[1][i - |syllables[0]|];
        }
      }
      var r := Words(syllables);
      RemoveHHFrom(first);
      forall k, i | 0 <= k < |r| && 0 <= i < |r[k]| ensures WireByte(r[k][i], ca, va) {
        if k == 0 {
          var j :| 0 <= j < |first| && first[j] == r[0][i];
        } else {
          assert r[k] == Words(syllables[2..])[k - 1];
        }
      }
    } else if |syllables| == 1 {
      var r := Words(syllables);
      RemoveHHFrom(syllables[0]);
      forall i | 0 <= i < |r[0]| ensures WireByte(r[0][i], ca, va) {
        var j :| 0 <= j < |syllables[0]| && syllables[0][j] == r[0][i];
      }
    }
  }

  lemma {:induction false} JoinWire(words: seq<seq<Byte>>, ca: seq<Byte>, va: seq<Byte>)
    requires AllWire(words, ca, va)
    ensures forall i | 0 <= i < |Join(words)| :: WireByte(Join(words)[i], ca, va)
    decreases |words|
  {
    if |words| == 1 {
      assert forall i | 0 <= i < |words[0]| :: WireByte(words[0][i], ca, va);
    } else if |words| > 1 {
      JoinWire(words[1..], ca, va);
      var w, rest := words[0], Join(words[1..]);
      forall i | 0 <= i < |Join(words)| ensures WireByte(Join(words)[i], ca, va) {
        if i < |w| {
          assert Join(words)[i] == w[i];
        } else if i == |w| {
          assert Join(words)[i] == HYPHEN;
        } else {
          assert Join(words)[i] == rest[i - |w| - 1];
        }
      }
    }
  }

  /** Every byte `encode` writes is a consonant, a vowel, 'h', 'e' or '-'. */
  lemma EncodeWireFormat(major: U128, minor: U128)
    ensures forall i | 0 <= i < |Encode(major, minor)| ::
              WireByte(Encode(major, minor)[i], CONSONANTS, VOWELS)
  {
    var c, v := Digits(major, CONSONANTS), Digits(minor, VOWELS);
    var syllables := Syllables(c, v, 0);
    forall k, i | 0 <= k < |syllables| && 0 <= i < |syllables[k]|
      ensures WireByte(syllables[k][i], CONSONANTS, VOWELS)
    {
      assert CONSONANT_PAD !in c && VOWEL_PAD !in v by { AlphabetsWellFormed(); }
      SyllablesShape(c, v, 0);
      SyllableBytes(c, v, k);
      var b := syllables[k][i];
      if b in c {
        var j :| 0 <= j < |c| && c[j] == b;
      } else if b in v {
        var j :| 0 <= j < |v| && v[j] == b;
      }
    }
    WordsWire(syllables, CONSONANTS, VOWELS);
    JoinWire(Words(syllables), CONSONANTS, VOWELS);
  }

  /** `decode` after `encode` gives back both numbers. */
  lemma RoundTrip(major: U128, minor: U128)
    ensures Decode(Encode(major, minor)) == (major, minor)
  {
    AlphabetsWellFormed();
    EncodeStreams(major, minor);
    DecodeEncode(major, CONSONANTS);
    DecodeEncode(minor, VOWELS);
  }

  /** Inserting bytes that are neither consonants nor vowels ('-', 'h', 'e'
      or anything else) anywhere in the text does not change what it decodes to. */
  lemma DecodeIgnoresNoise(before: seq<Byte>, noise: seq<Byte>, after: seq<Byte>)
    requires forall i | 0 <= i < |noise| :: noise[i] !in CONSONANTS && noise[i] !in VOWELS
    ensures Decode(before + noise + after) == Decode(before + after)
  {
    KeepNoise(before, noise, after, CONSONANTS);
    KeepNoise(before, noise, after, VOWELS);
  }

  lemma KeepNoise(before: seq<Byte>, noise: seq<Byte>, after: seq<Byte>, alphabet: seq<Byte>)
    requires forall i | 0 <= i < |noise| :: noise[i] !in alphabet
    ensures Keep(before + noise + after, alphabet) == Keep(before + after, alphabet)
  {
    KeepNone(noise, alphabet);
    KeepAppend(before + noise, after, alphabet);
    KeepAppend(before, noise, alphabet);
    KeepAppend(before, after, alphabet);
  }

  /** A text without consonants and vowels (the empty string, "----")
      decodes to (0, 0). */
  lemma DecodeWithoutLetters(gibber: seq<Byte>)
    requires forall i | 0 <= i < |gibber| :: gibber[i] !in CONSONANTS && gibber[i] !in VOWELS
    ensures Decode(gibber) == (0, 0)
  {
    KeepNone(gibber, CONSONANTS);
    KeepNone(gibber, VOWELS);
  }

  /** The consonant digits behind the test `encode_full`. */
  lemma FullExampleConsonants()
    ensures Digits(23242151, CONSONANTS)
         == ['n' as Byte, 'r' as Byte, 'l' as Byte, 't' as Byte, 'n' as Byte, 'q' as Byte]
  {
    // 23242151 has the base-17 digits 6, 11, 12, 4, 6, 16 from the lowest up
    DigitsStep(16, CONSONANTS, 0, 16);
    DigitsStep(278, CONSONANTS, 16, 6);
    DigitsStep(4730, CONSONANTS, 278, 4);
    DigitsStep(80422, CONSONANTS, 4730, 12);
    DigitsStep(1367185, CONSONANTS, 80422, 11);
    DigitsStep(23242151, CONSONANTS, 1367185, 6);
  }

  /** The vowel digits behind the test `encode_full`. */
  lemma FullExampleVowels()
    ensures Digits(123, VOWELS) == ['u' as Byte, 'y' as Byte, 'y' as Byte]
  {
    // 123 has the base-5 digits 3, 4, 4 from the lowest up
    DigitsStep(4, VOWELS, 0, 4);
    DigitsStep(24, VOWELS, 4, 4);
    DigitsStep(123, VOWELS, 24, 3);
  }

  /** The syllables behind the test `encode_full`. */
  lemma FullExampleSyllables()
    ensures Syllables(['n' as Byte, 'r' as Byte, 'l' as Byte, 't' as Byte, 'n' as Byte, 'q' as Byte],
                      ['u' as Byte, 'y' as Byte, 'y' as Byte], 0)
         == [['n' as Byte, 'u' as Byte, 'r' as Byte],
             ['l' as Byte, 'y' as Byte, 't' as Byte],
             ['n' as Byte, 'y' as Byte, 'q' as Byte]]
  {
    var c := ['n' as Byte, 'r' as Byte, 'l' as Byte, 't' as Byte, 'n' as Byte, 'q' as Byte];
    var v := ['u' as Byte, 'y' as Byte, 'y' as Byte];
    assert Syllables(c, v, 3) == [];
    assert Syllables(c, v, 2) == [Syllable(c, v, 2)];
    assert Syllables(c, v, 1) == [Syllable(c, v, 1), Syllable(c, v, 2)];
  }

  /** Three syllables make two words: the first pair, then the odd one out. */
  lemma WordsOfThree(a: seq<Byte>, b: seq<Byte>, c: seq<Byte>)
    ensures Words([a, b, c]) == [RemoveHH(a + b), RemoveHH(c)]
  {
    assert [a, b, c][2..] == [c];
  }

  /** Two words are joined by a single hyphen. */
  lemma JoinOfTwo(x: seq<Byte>, y: seq<Byte>)
    ensures Join([x, y]) == x + [HYPHEN] + y
  {
    assert [x, y][1..] == [y];
  }

  /** Three syllables without 'h' make two words, the first pair and the
      odd one out, joined by one hyphen. */
  lemma ThreeSyllableWords(a: seq<Byte>, b: seq<Byte>, c: seq<Byte>)
    requires CONSONANT_PAD !in a + b && CONSONANT_PAD !in c
    ensures Join(Words([a, b, c])) == a + b + [HYPHEN] + c
  {
    WordsOfThree(a, b, c);
    NoPadNoPair(a + b);
    NoPadNoPair(c);
    RemoveHHWithoutPair(a + b);
    RemoveHHWithoutPair(c);
    JoinOfTwo(a + b, c);
  }

  /** The test `encode_full`: (23242151, 123) encodes to "nurlyt-nyq". */
  lemma EncodeFullExample()
    ensures Encode(23242151, 123)
         == ['n' as Byte, 'u' as Byte, 'r' as Byte, 'l' as Byte, 'y' as Byte, 't' as Byte,
             '-' as Byte, 'n' as Byte, 'y' as Byte, 'q' as Byte]
  {
    FullExampleConsonants();
    FullExampleVowels();
    FullExampleSyllables();
    var nur := ['n' as Byte, 'u' as Byte, 'r' as Byte];
    var lyt := ['l' as Byte, 'y' as Byte, 't' as Byte];
    var nyq := ['n' as Byte, 'y' as Byte, 'q' as Byte];
    ThreeSyllableWords(nur, lyt, nyq);
  }

  /** A case with pad bytes: 1 has the single consonant digit "g" and 6 the
      vowel digits "ii", so the syllables are "gih" and "hih"; the word
      "gihhih" loses its "hh" and keeps its last, lone 'h'. */
  lemma EncodePadExample()
    ensures Encode(1, 6) == ['g' as Byte, 'i' as Byte, 'i' as Byte, 'h' as Byte]
  {
    PadExampleDigits();
    PadExampleSyllables();
    PadExampleWord();
  }

  lemma PadExampleDigits()
    ensures Digits(1, CONSONANTS) == ['g' as Byte]
    ensures Digits(6, VOWELS) == ['i' as Byte, 'i' as Byte]
  {
    DigitsStep(1, CONSONANTS, 0, 1);
    DigitsStep(1, VOWELS, 0, 1);
    DigitsStep(6, VOWELS, 1, 1);
  }

  lemma PadExampleSyllables()
    ensures Syllables(['g' as Byte], ['i' as Byte, 'i' as Byte], 0)
         == [['g' as Byte, 'i' as Byte, CONSONANT_PAD], [CONSONANT_PAD, 'i' as Byte, CONSONANT_PAD]]
  {
    var c, v := ['g' as Byte], ['i' as Byte, 'i' as Byte];
    assert Syllables(c, v, 2) == [];
    assert Syllables(c, v, 1) == [Syllable(c, v, 1)];
  }

  lemma PadExampleWord()
    ensures Join(Words([['g' as Byte, 'i' as Byte, CONSONANT_PAD], [CONSONANT_PAD, 'i' as Byte, CONSONANT_PAD]]))
         == ['g' as Byte, 'i' as Byte, 'i' as Byte, 'h' as Byte]
  {
    var gih: seq<Byte>, hih: seq<Byte> := ['g' as Byte, 'i' as Byte, CONSONANT_PAD], [CONSONANT_PAD, 'i' as Byte, CONSONANT_PAD];
    var word := gih + hih;
    assert |[gih, hih][2..]| == 0;
    assert Words([gih, hih]) == [RemoveHH(word)];
    var x, y := ['g' as Byte, 'i' as Byte], ['i' as Byte, CONSONANT_PAD];
    assert word == x + [CONSONANT_PAD, CONSONANT_PAD] + y;
    RemoveHHCancel(x, y);
    var giih := x + y;
    assert NoPadPair(giih);
    RemoveHHWithoutPair(giih);
  }

  /** The test `decode_full`: "nurlyt-nyq" decodes to (23242151, 123). */
  lemma DecodeFullExample()
    ensures Decode(['n' as Byte, 'u' as Byte, 'r' as Byte, 'l' as Byte, 'y' as Byte, 't' as Byte,
                    '-' as Byte, 'n' as Byte, 'y' as Byte, 'q' as Byte])
         == (23242151, 123)
  {
    EncodeFullExample();
    RoundTrip(23242151, 123);
  }
}
