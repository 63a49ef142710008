/** `LetterChanges` (challenge.py): every lowercase ASCII letter is replaced
    by the next one, `z` wrapping round to `a`, and then every lowercase vowel
    of the result is uppercased. Characters outside `a`-`z` pass through. */
module LetterChanges {
  import opened Wrappers

  /** Python's `string.ascii_lowercase`: the 26 letters from `a`, one code
      point apart (`AsciiLowercaseSpelledOut` gives them as Python writes them). */
  function AsciiLowercase(): string {
    seq(26, k requires 0 <= k < 26 => ('a' as int + k) as char)
  }

  /** `VOWELS`: lowercase only, so an uppercase vowel is not one of them. */
  const Vowels: string := "aeiou"

  /** The alphabet is the string Python spells out. */
  lemma AsciiLowercaseSpelledOut()
    ensures AsciiLowercase() == "abcdefghijklmnopqrstuvwxyz"
  {
  }

  /** `s.index(c)`: the first position of `c` in `s`, or `None` where
      Python raises `ValueError`. */
  function IndexOf(s: string, c: char): (r: Option<nat>)
    ensures r.Some? ==> r.value < |s| && s[r.value] == c
    ensures r.Some? ==> forall j :: 0 <= j < r.value ==> s[j] != c
    ensures r.None? <==> c !in s
  {
    if s == [] then None
    else if s[0] == c then Some(0)
    else match IndexOf(s[1..], c)
      case None => None
      case Some(i) => Some(i + 1)
  }

  /** One step of the first pass: `z` becomes `a`; a character found in
      `ascii_lowercase` becomes the letter at the next index; any other
      character is kept. So a letter stays a letter and nothing else moves. */
  function Shift(c: char): (r: char)
    ensures c in AsciiLowercase() <==> r in AsciiLowercase()
    ensures c !in AsciiLowercase() ==> r == c
  {
    if c == 'z' then
      assert AsciiLowercase()[0] == 'a' && AsciiLowercase()[25] == 'z';
      'a'
    else match IndexOf(AsciiLowercase(), c)
      case None => c
      case Some(i) => AsciiLowercase()[i + 1]
  }

  /** `x_char.upper()` for the characters the helper applies it to, the
      lowercase vowels: the ASCII uppercase letter 32 code points lower. */
  function Upper(c: char): char
    requires 'a' <= c <= 'z'
  {
    (c as int - 32) as char
  }

  /** The inner helper `capitalize_if_needed`: a lowercase vowel becomes its
      uppercase letter, anything else is kept, so no vowel of `VOWELS` is left. */
  function CapitalizeIfNeeded(c: char): (r: char)
    ensures r !in Vowels
    ensures c !in Vowels ==> r == c
    ensures c in Vowels ==> 'A' <= r <= 'Z' && r as int == c as int - 32
  {
    if c in Vowels then Upper(c) else c
  }

  /** The second pass, a list comprehension over the shifted characters: the
      same length, no lowercase vowel left, every other character kept. */
  function CapitalizeAll(t: string): (r: string)
    ensures |r| == |t|
    ensures forall i :: 0 <= i < |r| ==> r[i] !in Vowels
    ensures forall i :: 0 <= i < |t| && t[i] !in Vowels ==> r[i] == t[i]
  {
    seq(|t|, i requires 0 <= i < |t| => CapitalizeIfNeeded(t[i]))
  }

  /** The first pass as a whole: the same length, letters of
      `ascii_lowercase` at the same positions, every other character kept. */
  function ShiftAll(s: string): (r: string)
    ensures |r| == |s|
    ensures forall i :: 0 <= i < |s| ==> (s[i] in AsciiLowercase() <==> r[i] in AsciiLowercase())
    ensures forall i :: 0 <= i < |s| && s[i] !in AsciiLowercase() ==> r[i] == s[i]
  {
    seq(|s|, i requires 0 <= i < |s| => Shift(s[i]))
  }

  /** What `LetterChanges(s)` returns: the second pass after the first. The
      output has the input's length, and each output character depends only
      on the input character at the same position, as `Expected` says. */
  function Changed(s: string): (r: string)
    ensures |r| == |s|
    ensures forall i :: 0 <= i < |s| ==> r[i] == Expected(s[i])
  {
    ChangedCharEverywhere();
    CapitalizeAll(ShiftAll(s))
  }

  /** An independent statement of what becomes of one character, by code
      point: `a`-`y` move one code point up, `z` goes to `A`, and a result
      that is a vowel is the uppercase letter. */
  function Expected(c: char): char {
    if c == 'z' then 'A'
    else if 'a' <= c < 'z' then
      var next := (c as int + 1) as char;
      if next == 'e' || next == 'i' || next == 'o' || next == 'u'
      then (next as int - 32) as char
      else next
    else c
  }

  /** `LetterChanges` itself: the `for` loop appending to `new_chars`, then
      the comprehension. */
  method LetterChanges(s: string) returns (r: string)
    ensures r == Changed(s)
    ensures |r| == |s|
    ensures forall i :: 0 <= i < |s| ==> r[i] == Expected(s[i])
  {
    var newChars: string := [];
    for n := 0 to |s|
      invariant |newChars| == n
      invariant forall k :: 0 <= k < n ==> newChars[k] == Shift(s[k])
    {
      var c := s[n];
      if c == 'z' {
        newChars := newChars + ['a'];
        continue;
      }
      match IndexOf(AsciiLowercase(), c)
      case None =>
        newChars := newChars + [c];
      case Some(index) =>
        newChars := newChars + [AsciiLowercase()[index + 1]];
    }
    assert newChars == ShiftAll(s);
    r := CapitalizeAll(newChars);
  }

  /** `ascii_lowercase.index` finds exactly the letters `a`-`z`, each at its
      distance from `a`. */
  lemma IndexOfAsciiLowercase(c: char)
    ensures IndexOf(AsciiLowercase(), c) ==
      if 'a' <= c <= 'z' then Some(c as int - 'a' as int) else None
  {
    if 'a' <= c <= 'z' {
      assert AsciiLowercase()[c as int - 'a' as int] == c;
    }
  }

  /** The first pass moves `a`-`y` one code point up, wraps `z` to `a` and
      keeps everything else. */
  lemma ShiftIsNextLetter(c: char)
    ensures Shift(c) ==
      if c == 'z' then 'a'
      else if 'a' <= c < 'z' then (c as int + 1) as char
      else c
  {
    IndexOfAsciiLowercase(c);
  }

  /** Both passes on one character agree with the reference `Expected`. */
  lemma ChangedChar(c: char)
    ensures CapitalizeIfNeeded(Shift(c)) == Expected(c)
  {
    ShiftIsNextLetter(c);
  }

  /** `ChangedChar` for every character at once. */
  lemma ChangedCharEverywhere()
    ensures forall c :: CapitalizeIfNeeded(Shift(c)) == Expected(c)
  {
    forall c ensures CapitalizeIfNeeded(Shift(c)) == Expected(c) {
      ChangedChar(c);
    }
  }

  /** The transform works character by character, so it distributes over
      concatenation. */
  lemma ChangedConcat(s: string, t: string)
    ensures Changed(s + t) == Changed(s) + Changed(t)
  {
    var l, r := Changed(s + t), Changed(s) + Changed(t);
    forall i | 0 <= i < |s + t| ensures l[i] == r[i] {
      if i < |s| {
        assert (s + t)[i] == s[i];
      } else {
        assert (s + t)[i] == t[i - |s|];
      }
    }
  }

  /** `z` wraps to `a`, which the second pass uppercases. */
  lemma ZBecomesUppercaseA(s: string, i: nat)
    requires i < |s| && s[i] == 'z'
    ensures Changed(s)[i] == 'A'
  {
  }

  /** A lowercase letter before `z` becomes the next letter of
      `ascii_lowercase`, uppercased exactly when that letter is a vowel. */
  lemma LetterBecomesNext(s: string, i: nat)
    requires i < |s| && 'a' <= s[i] < 'z'
    ensures var next := AsciiLowercase()[s[i] as int - 'a' as int + 1];
      Changed(s)[i] == if next in Vowels then Upper(next) else next
  {
    IndexOfAsciiLowercase(s[i]);
  }

  /** A character outside `a`-`z` is returned as it is; this includes the
      uppercase vowels, which are not in `VOWELS`. */
  lemma OthersUnchanged(s: string, i: nat)
    requires i < |s| && !('a' <= s[i] <= 'z')
    ensures Changed(s)[i] == s[i]
  {
  }

  /** No character of the result is a lowercase vowel. */
  lemma NoLowercaseVowel(s: string)
    ensures forall i :: 0 <= i < |Changed(s)| ==> Changed(s)[i] !in Vowels
  {
  }

  /** The expected result of the call at the bottom of challenge.py, one
      letter at a time. */
  lemma AlphabetAt(k: nat)
    requires k < 26
    ensures Expected(('a' as int + k) as char) == "bcdEfghIjklmnOpqrstUvwxyzA"[k]
  {
  }

  /** The call at the bottom of challenge.py. */
  lemma Alphabet()
    ensures Changed(AsciiLowercase()) == "bcdEfghIjklmnOpqrstUvwxyzA"
  {
    var r := Changed(AsciiLowercase());
    forall k | 0 <= k < 26 ensures r[k] == "bcdEfghIjklmnOpqrstUvwxyzA"[k] {
      AlphabetAt(k);
    }
  }
}
