/**
 * The character layer of the corrector: the QWERTY -> JCUKEN table and its
 * inverse, the hand-written Cyrillic case helpers, and the two per-character
 * loops that transform a copied selection (layout conversion and case toggle).
 *
 * A character is its Unicode code point (a Dafny `char`).  Swift's generic
 * case API (`lowercased()`, `uppercased()`, `isUppercase`, `isLowercase`) is
 * modelled by the ASCII rule only; the Cyrillic block U+0410..U+044F is
 * handled by the program's own helpers.
 */
module Transliteration {

  // ---------------------------------------------------------------------------
  // Tables
  // ---------------------------------------------------------------------------

  /** The EN -> RU table: a key of the US layout to the character the same
      physical key produces in the Russian layout (lower case only). */
  const EnToRu: map<char, char> := map[
    'q' := 'й', 'w' := 'ц', 'e' := 'у', 'r' := 'к', 't' := 'е', 'y' := 'н', 'u' := 'г', 'i' := 'ш', 'o' := 'щ', 'p' := 'з',
    '[' := 'х', ']' := 'ъ',
    'a' := 'ф', 's' := 'ы', 'd' := 'в', 'f' := 'а', 'g' := 'п', 'h' := 'р', 'j' := 'о', 'k' := 'л', 'l' := 'д',
    ';' := 'ж', '\'' := 'э',
    'z' := 'я', 'x' := 'ч', 'c' := 'с', 'v' := 'м', 'b' := 'и', 'n' := 'т', 'm' := 'ь',
    ',' := 'б', '.' := 'ю'
  ]

  /** No two keys of `m` share a value. */
  ghost predicate Injective(m: map<char, char>) {
    forall a, b :: a in m && b in m && a != b ==> m[a] != m[b]
  }

  /** The inverse of an injective table. */
  function Invert(m: map<char, char>): (d: map<char, char>)
    requires Injective(m)
    ensures d.Keys == m.Values
    ensures forall k :: k in m ==> m[k] in d && d[m[k]] == k
  {
    map k | k in m :: m[k] := k
  }

  /** The RU -> EN table, derived from EnToRu. */
  const RuToEn: map<char, char> := (EnToRuInjective(); Invert(EnToRu))

  /**
   * The loop that fills `ruToEn`: walk the pairs of `m` in some order and
   * store `d[ru] = en`.  Whatever the order, every value of `m` becomes a key
   * and is sent back to one of its preimages (the last one written when `m`
   * has duplicate targets); when `m` is injective the result is its inverse.
   */
  method BuildInverse(m: map<char, char>) returns (d: map<char, char>)
    ensures d.Keys == m.Values
    ensures forall v :: v in d ==> d[v] in m && m[d[v]] == v
    ensures Injective(m) ==> d == Invert(m)
  {
    d := map[];
    var todo := m.Keys;
    while todo != {}
      invariant todo <= m.Keys
      invariant d.Keys == set k | k in m.Keys - todo :: m[k]
      invariant forall v :: v in d ==> d[v] in m && d[v] !in todo && m[d[v]] == v
      invariant Injective(m) ==> forall k :: k in m.Keys - todo ==> d[m[k]] == k
      decreases todo
    {
      var en :| en in todo;
      d := d[m[en] := en];
      todo := todo - {en};
    }
    assert m.Keys - todo == m.Keys;
    if Injective(m) {
      var inv := Invert(m);
      assert d.Keys == inv.Keys;
      forall v | v in d ensures d[v] == inv[v] {
        assert d[v] in m && m[d[v]] == v;
      }
    }
  }

  lemma EnToRuInjective()
    ensures Injective(EnToRu)
  {
  }

  /** The keys of EnToRu in code-point order. */
  ghost const EnKeys: seq<char> := [
    '\'', ',', '.', ';', '[', ']',
    'a', 'b', 'c', 'd', 'e', 'f', 'g', 'h', 'i', 'j', 'k', 'l', 'm',
    'n', 'o', 'p', 'q', 'r', 's', 't', 'u', 'v', 'w', 'x', 'y', 'z'
  ]

  ghost predicate Distinct(s: seq<char>) {
    forall i, j :: 0 <= i < j < |s| ==> s[i] != s[j]
  }

  /** A list without repetitions has as many elements as its set. */
  lemma {:induction false} DistinctCard(s: seq<char>)
    requires Distinct(s)
    ensures |set x | x in s| == |s|
  {
    if |s| > 0 {
      DistinctCard(s[1..]);
      assert (set x | x in s) == (set x | x in s[1..]) + {s[0]};
    }
  }

  ghost predicate Increasing(s: seq<char>) {
    forall i :: 0 <= i < |s| - 1 ==> s[i] < s[i + 1]
  }

  /** Each element of a list increasing step by step is below all later ones. */
  lemma {:induction false} IncreasingIsDistinct(s: seq<char>)
    requires Increasing(s)
    ensures forall i, j :: 0 <= i < j < |s| ==> s[i] < s[j]
    ensures Distinct(s)
  {
    if |s| > 1 {
      var t := s[1..];
      assert Increasing(t) by {
        forall i | 0 <= i < |t| - 1 ensures t[i] < t[i + 1] {
          assert s[i + 1] < s[i + 2];
        }
      }
      IncreasingIsDistinct(t);
      forall i, j | 0 <= i < j < |s| ensures s[i] < s[j] {
        if i > 0 {
          assert s[i] == t[i - 1] && s[j] == t[j - 1];
        } else if j > 1 {
          assert s[1] == t[0] && s[j] == t[j - 1];
        }
      }
    }
  }

  lemma EnKeysDistinct()
    ensures Distinct(EnKeys)
  {
    assert Increasing(EnKeys);
    IncreasingIsDistinct(EnKeys);
  }

  lemma EnKeysAreTheKeys()
    ensures EnToRu.Keys == set x | x in EnKeys
  {
  }

  /** Both tables have 32 entries: the targets of EnToRu are all distinct. */
  lemma TableSizes()
    ensures |EnToRu| == 32
    ensures |RuToEn| == 32
  {
    EnKeysDistinct();
    EnKeysAreTheKeys();
    DistinctCard(EnKeys);
    assert |EnToRu| == |EnToRu.Keys|;
    EnToRuInjective();
    InvertSize(EnToRu);
  }

  /** Inverting an injective table loses no entry. */
  lemma {:induction false} InvertSize(m: map<char, char>)
    requires Injective(m)
    ensures |Invert(m)| == |m|
    decreases |m|
  {
    if |m| > 0 {
      var k :| k in m;
      var rest := m - {k};
      assert Injective(rest);
      InvertSize(rest);
      var inv, invRest := Invert(m), Invert(rest);
      assert invRest.Keys == inv.Keys - {m[k]} by {
        forall v | v in inv.Keys - {m[k]} ensures v in invRest.Keys {
          var j := inv[v];
          assert j in rest;
        }
      }
      assert |rest| == |m| - 1;
    }
  }

  /** RuToEn is the exact inverse of EnToRu, in both directions. */
  lemma RuToEnInvertsEnToRu()
    ensures forall en :: en in EnToRu ==> EnToRu[en] in RuToEn && RuToEn[EnToRu[en]] == en
    ensures forall ru :: ru in RuToEn ==> RuToEn[ru] in EnToRu && EnToRu[RuToEn[ru]] == ru
  {
    EnToRuInjective();
    forall ru | ru in RuToEn
      ensures RuToEn[ru] in EnToRu && EnToRu[RuToEn[ru]] == ru
    {
      var en :| en in EnToRu && EnToRu[en] == ru;
    }
  }

  // ---------------------------------------------------------------------------
  // Case helpers
  // ---------------------------------------------------------------------------

  /** `isCyrillicUpper`: the upper-case letters of the basic Cyrillic block,
      which are neither lower-case Cyrillic nor ASCII. */
  predicate IsCyrillicUpper(c: char)
    ensures IsCyrillicUpper(c) <==> 'А' <= c <= 'Я'
    ensures IsCyrillicUpper(c) ==> !IsCyrillicLower(c) && c as int >= 128
  {
    0x0410 <= c as int <= 0x042F
  }

  /** Lower-case letters of the basic Cyrillic block (а..я). */
  predicate IsCyrillicLower(c: char) {
    0x0430 <= c as int <= 0x044F
  }

  /** `cyrillicLower`: А..Я to а..я, every other character unchanged. */
  function CyrillicLower(c: char): (r: char)
    ensures IsCyrillicUpper(c) ==> IsCyrillicLower(r) && r as int - c as int == 0x20
    ensures !IsCyrillicUpper(c) ==> r == c
  {
    if IsCyrillicUpper(c) then (c as int + 0x20) as char else c
  }

  /** `cyrillicUpper`: а..я to А..Я, every other character unchanged. */
  function CyrillicUpper(c: char): (r: char)
    ensures IsCyrillicLower(c) ==> IsCyrillicUpper(r) && c as int - r as int == 0x20
    ensures !IsCyrillicLower(c) ==> r == c
  {
    if IsCyrillicLower(c) then (c as int - 0x20) as char else c
  }

  /** The two helpers undo each other on the block. */
  lemma CyrillicCaseRoundTrip(c: char)
    ensures IsCyrillicUpper(c) ==> CyrillicUpper(CyrillicLower(c)) == c
    ensures IsCyrillicLower(c) ==> CyrillicLower(CyrillicUpper(c)) == c
  {
  }

  /** Swift's `isUppercase` on the ASCII range: an ASCII letter, never a
      Cyrillic one. */
  predicate IsUppercase(c: char)
    ensures IsUppercase(c) ==> c as int < 128 && !IsCyrillicUpper(c) && !IsCyrillicLower(c)
  {
    'A' <= c <= 'Z'
  }

  /** Swift's `isLowercase` on the ASCII range: an ASCII letter that is not
      also upper case. */
  predicate IsLowercase(c: char)
    ensures IsLowercase(c) ==> c as int < 128 && !IsUppercase(c) && !IsCyrillicLower(c)
  {
    'a' <= c <= 'z'
  }

  /** Swift's `lowercased()` on the ASCII range. */
  function Lowercased(c: char): (r: char)
    ensures IsUppercase(c) ==> IsLowercase(r) && r as int - c as int == 0x20
    ensures !IsUppercase(c) ==> r == c
  {
    if IsUppercase(c) then (c as int + 0x20) as char else c
  }

  /** Swift's `uppercased()` on the ASCII range. */
  function Uppercased(c: char): (r: char)
    ensures IsLowercase(c) ==> IsUppercase(r) && c as int - r as int == 0x20
    ensures !IsLowercase(c) ==> r == c
  {
    if IsLowercase(c) then (c as int - 0x20) as char else c
  }

  // ---------------------------------------------------------------------------
  // Selection conversion
  // ---------------------------------------------------------------------------

  /** The direction test: EN -> RU exactly when the first character is ASCII. */
  predicate IsEnglish(text: seq<char>)
    ensures IsEnglish(text) ==> |text| > 0 && !IsCyrillicUpper(text[0]) && !IsCyrillicLower(text[0])
    ensures |text| > 0 && (IsUppercase(text[0]) || IsLowercase(text[0])) ==> IsEnglish(text)
  {
    |text| > 0 && text[0] as int < 128
  }

  /** A character the given direction has no table entry for. */
  predicate Unmapped(c: char, toRussian: bool) {
    if toRussian then Lowercased(c) !in EnToRu else CyrillicLower(c) !in RuToEn
  }

  /** One step of the conversion loop: a mapped character becomes the
      character on the same key of the other layout, up to case. */
  function ConvertChar(c: char, toRussian: bool): (r: char)
    ensures toRussian && !Unmapped(c, true) ==> CyrillicLower(r) == EnToRu[Lowercased(c)]
    ensures toRussian && !Unmapped(c, true) && !IsUppercase(c) ==> r == EnToRu[Lowercased(c)]
    ensures !toRussian && !Unmapped(c, false) ==> Lowercased(r) == RuToEn[CyrillicLower(c)]
  {
    if toRussian then
      var lower := Lowercased(c);
      if lower in EnToRu then
        KeyFacts(lower);
        if c != lower then CyrillicUpper(EnToRu[lower]) else EnToRu[lower]
      else c
    else
      var isUpper := IsCyrillicUpper(c);
      var lower := CyrillicLower(c);
      if lower in RuToEn then
        BackThenForward(lower);
        KeyFacts(RuToEn[lower]);
        if isUpper then Uppercased(RuToEn[lower]) else RuToEn[lower]
      else c
  }

  /** Whatever the direction, a character with no table entry is copied. */
  lemma ConvertKeepsUnmapped(c: char)
    ensures Unmapped(c, true) ==> ConvertChar(c, true) == c
    ensures Unmapped(c, false) ==> ConvertChar(c, false) == c
  {
  }

  /** The text the conversion loop produces: as long as the selection, with
      every character the chosen direction does not map left in place. */
  function Converted(text: seq<char>): (r: seq<char>)
    ensures |r| == |text|
    ensures forall i :: 0 <= i < |text| && Unmapped(text[i], IsEnglish(text)) ==> r[i] == text[i]
  {
    var toRussian := IsEnglish(text);
    seq(|text|, i requires 0 <= i < |text| => ConvertChar(text[i], toRussian))
  }

  /** The loop of `convertSelectedText` that builds `converted`. */
  method ConvertSelectedChars(text: seq<char>) returns (converted: seq<char>)
    ensures |converted| == |text|
    ensures forall i :: 0 <= i < |text| ==> converted[i] == ConvertChar(text[i], IsEnglish(text))
    ensures converted == Converted(text)
  {
    var isEN := |text| > 0 && text[0] as int < 128;
    converted := [];
    for k := 0 to |text|
      invariant |converted| == k
      invariant forall i :: 0 <= i < k ==> converted[i] == ConvertChar(text[i], isEN)
    {
      var ch := text[k];
      var result: char;
      var found: bool;
      if isEN {
        var lower := Lowercased(ch);
        found := lower in EnToRu;
        if found {
          result := EnToRu[lower];
          if ch != lower {
            result := CyrillicUpper(result);
          }
        }
      } else {
        var isUpper := IsCyrillicUpper(ch);
        var lower := CyrillicLower(ch);
        found := lower in RuToEn;
        if found {
          result := RuToEn[lower];
          if isUpper {
            result := Uppercased(result);
          }
        }
      }
      converted := converted + [if found then result else ch];
    }
  }

  /** Every lower-case letter of the Cyrillic block is a target of EnToRu. */
  lemma BlockInTargets(c: char)
    requires IsCyrillicLower(c)
    ensures c in EnToRu.Values
  {
    var n := c as int;
    // Each of the 32 letters, as the image of its key.
    if      n == 0x430 { assert EnToRu['f'] == c; } else if n == 0x431 { assert EnToRu[','] == c; }
    else if n == 0x432 { assert EnToRu['d'] == c; } else if n == 0x433 { assert EnToRu['u'] == c; }
    else if n == 0x434 { assert EnToRu['l'] == c; } else if n == 0x435 { assert EnToRu['t'] == c; }
    else if n == 0x436 { assert EnToRu[';'] == c; } else if n == 0x437 { assert EnToRu['p'] == c; }
    else if n == 0x438 { assert EnToRu['b'] == c; } else if n == 0x439 { assert EnToRu['q'] == c; }
    else if n == 0x43A { assert EnToRu['r'] == c; } else if n == 0x43B { assert EnToRu['k'] == c; }
    else if n == 0x43C { assert EnToRu['v'] == c; } else if n == 0x43D { assert EnToRu['y'] == c; }
    else if n == 0x43E { assert EnToRu['j'] == c; } else if n == 0x43F { assert EnToRu['g'] == c; }
    else if n == 0x440 { assert EnToRu['h'] == c; } else if n == 0x441 { assert EnToRu['c'] == c; }
    else if n == 0x442 { assert EnToRu['n'] == c; } else if n == 0x443 { assert EnToRu['e'] == c; }
    else if n == 0x444 { assert EnToRu['a'] == c; } else if n == 0x445 { assert EnToRu['['] == c; }
    else if n == 0x446 { assert EnToRu['w'] == c; } else if n == 0x447 { assert EnToRu['x'] == c; }
    else if n == 0x448 { assert EnToRu['i'] == c; } else if n == 0x449 { assert EnToRu['o'] == c; }
    else if n == 0x44A { assert EnToRu[']'] == c; } else if n == 0x44B { assert EnToRu['s'] == c; }
    else if n == 0x44C { assert EnToRu['m'] == c; } else if n == 0x44D { assert EnToRu['\''] == c; }
    else if n == 0x44E { assert EnToRu['.'] == c; } else { assert EnToRu['z'] == c; }
  }

  /** So the RU -> EN direction maps the whole block, each letter back to its key. */
  lemma RuToEnCoversBlock(c: char)
    requires IsCyrillicLower(c)
    ensures c in RuToEn && RuToEn[c] in EnToRu && EnToRu[RuToEn[c]] == c
  {
    BlockInTargets(c);
    EnToRuInjective();
    BackThenForward(c);
  }

  /** Every key of EnToRu is an ASCII character that is not an upper-case
      letter, and its target is a lower-case Cyrillic letter. */
  lemma KeyFacts(en: char)
    requires en in EnToRu
    ensures en as int < 128 && !IsUppercase(en)
    ensures IsCyrillicLower(EnToRu[en])
  {
  }

  /** What a key of EnToRu and its target give through RuToEn. */
  lemma ForwardThenBack(en: char)
    requires en in EnToRu
    ensures EnToRu[en] in RuToEn && RuToEn[EnToRu[en]] == en
  {
    EnToRuInjective();
  }

  /** Every key of RuToEn is a lower-case Cyrillic letter that EnToRu gives
      back from its target. */
  lemma BackThenForward(ru: char)
    requires ru in RuToEn
    ensures RuToEn[ru] in EnToRu && EnToRu[RuToEn[ru]] == ru
    ensures IsCyrillicLower(ru)
  {
    EnToRuInjective();
    var en :| en in EnToRu && EnToRu[en] == ru;
    KeyFacts(en);
  }

  /** All 26 Latin letters are keys of EnToRu. */
  lemma LetterIsKey(c: char)
    requires IsLowercase(c)
    ensures c in EnToRu
  {
  }

  /** EN -> RU keeps the case of a Latin letter. */
  lemma ToRussianKeepsCase(c: char)
    ensures IsUppercase(c) ==> IsCyrillicUpper(ConvertChar(c, true))
    ensures IsLowercase(c) ==> IsCyrillicLower(ConvertChar(c, true))
  {
    if IsUppercase(c) || IsLowercase(c) {
      LetterIsKey(Lowercased(c));
      KeyFacts(Lowercased(c));
    }
  }

  /** RU -> EN sends every lower-case Cyrillic letter to its key, and keeps the
      case of an upper-case one whose key is a Latin letter. */
  lemma ToEnglishKeepsCase(c: char)
    ensures IsCyrillicLower(c) ==> ConvertChar(c, false) in EnToRu && EnToRu[ConvertChar(c, false)] == c
    ensures IsCyrillicUpper(c) ==> CyrillicLower(c) in RuToEn
    ensures IsCyrillicUpper(c) && IsLowercase(RuToEn[CyrillicLower(c)]) ==> IsUppercase(ConvertChar(c, false))
  {
    if IsCyrillicLower(c) {
      RuToEnCoversBlock(c);
    }
    if IsCyrillicUpper(c) {
      RuToEnCoversBlock(CyrillicLower(c));
    }
  }

  /** A character outside the basic Cyrillic block. */
  predicate OutsideBlock(c: char) {
    !IsCyrillicUpper(c) && !IsCyrillicLower(c)
  }

  /** The six capitals Х Ъ Ж Э Б Ю, whose keys are punctuation, so that
      RU -> EN has no upper case to give them. */
  predicate PunctuationCapital(c: char) {
    IsCyrillicUpper(c) && CyrillicLower(c) in RuToEn && !IsLowercase(RuToEn[CyrillicLower(c)])
  }

  /** Converting EN -> RU and back restores any character outside the block. */
  lemma CharRoundTripFromEnglish(c: char)
    requires OutsideBlock(c)
    ensures ConvertChar(ConvertChar(c, true), false) == c
  {
    var lower := Lowercased(c);
    if lower !in EnToRu {
      // Copied unchanged, and not a key of RuToEn either.
      assert ConvertChar(c, true) == c;
      assert CyrillicLower(c) == c;
      if c in RuToEn {
        BackThenForward(c);
      }
    } else if IsUppercase(c) {
      var r := EnToRu[lower];
      KeyFacts(lower);
      ForwardThenBack(lower);
      var up := CyrillicUpper(r);
      assert ConvertChar(c, true) == up;
      assert IsCyrillicUpper(up) && CyrillicLower(up) == r;
      assert IsLowercase(lower) && Uppercased(lower) == c;
    } else {
      var r := EnToRu[lower];
      KeyFacts(lower);
      ForwardThenBack(lower);
      assert c == lower;
      assert ConvertChar(c, true) == r;
      assert !IsCyrillicUpper(r) && CyrillicLower(r) == r;
    }
  }

  /** Converting RU -> EN and back restores any character the EN -> RU direction
      leaves alone, except an upper-case letter whose key is punctuation
      (Х Ъ Ж Э Б Ю), which comes back lower case. */
  lemma CharRoundTripFromRussian(c: char)
    requires Unmapped(c, true) && !PunctuationCapital(c)
    ensures ConvertChar(ConvertChar(c, false), true) == c
  {
    var lower := CyrillicLower(c);
    if IsCyrillicUpper(c) {
      RuToEnCoversBlock(lower);
    }
    if lower in RuToEn {
      var en := RuToEn[lower];
      BackThenForward(lower);
      if IsCyrillicUpper(c) {
        assert Lowercased(Uppercased(en)) == en;
      }
    } else {
      assert !IsCyrillicUpper(c) && !IsCyrillicLower(c) by {
        if IsCyrillicLower(c) { RuToEnCoversBlock(c); }
      }
    }
  }

  /** Upper-case Б comes back from a round trip as lower-case б. */
  lemma RoundTripLosesCaseOfBe()
    ensures PunctuationCapital('Б')
    ensures ConvertChar('Б', false) == ','
    ensures ConvertChar(ConvertChar('Б', false), true) == 'б'
  {
    ForwardThenBack(',');
  }

  /** Converting an English selection (one that starts with a mapped
      character and has no Cyrillic letters) twice gives it back. */
  lemma {:induction false} RoundTripFromEnglish(text: seq<char>)
    requires |text| > 0 && !Unmapped(text[0], true)
    requires forall i :: 0 <= i < |text| ==> OutsideBlock(text[i])
    ensures IsEnglish(text) && !IsEnglish(Converted(text))
    ensures Converted(Converted(text)) == text
  {
    KeyFacts(Lowercased(text[0]));
    var once := Converted(text);
    assert IsCyrillicLower(once[0]) || IsCyrillicUpper(once[0]);
    forall i | 0 <= i < |text| ensures Converted(once)[i] == text[i] {
      CharRoundTripFromEnglish(text[i]);
    }
  }

  /** Converting a Russian selection (one that starts with a Cyrillic letter
      and has nothing the EN -> RU direction would map) twice gives it back,
      provided no letter is one of the six whose key is punctuation and which
      is written in upper case. */
  lemma {:induction false} RoundTripFromRussian(text: seq<char>)
    requires |text| > 0 && (IsCyrillicLower(text[0]) || IsCyrillicUpper(text[0]))
    requires forall i :: 0 <= i < |text| ==> Unmapped(text[i], true)
    requires forall i :: 0 <= i < |text| ==> !PunctuationCapital(text[i])
    ensures !IsEnglish(text) && IsEnglish(Converted(text))
    ensures Converted(Converted(text)) == text
  {
    var once := Converted(text);
    RuToEnCoversBlock(CyrillicLower(text[0]));
    KeyFacts(RuToEn[CyrillicLower(text[0])]);
    assert once[0] as int < 128;
    forall i | 0 <= i < |text| ensures Converted(once)[i] == text[i] {
      CharRoundTripFromRussian(text[i]);
    }
  }

  /** "Hello" becomes "Руддщ": the upper-case H maps to upper-case Р. */
  lemma ConvertHello()
    ensures Converted("Hello") == "Руддщ"
  {
    assert EnToRu['h'] == 'р' && EnToRu['e'] == 'у' && EnToRu['l'] == 'д' && EnToRu['o'] == 'щ';
  }

  /** A punctuation key inside Russian text comes back as the letter on that
      key: "а," goes to "f," and then to "аб". */
  lemma RoundTripTurnsCommaIntoBe()
    ensures Converted("а,") == "f,"
    ensures Converted("f,") == "аб"
  {
    ForwardThenBack('f');
    assert EnToRu[','] == 'б';
  }

  /** A selection starting with an ASCII character that has no table entry is
      converted EN -> RU every time: "1a" goes to "1ф", which stays "1ф". */
  lemma DigitFirstStaysEnglish()
    ensures Converted("1a") == "1ф"
    ensures Converted("1ф") == "1ф"
  {
    assert EnToRu['a'] == 'ф';
  }

  // ---------------------------------------------------------------------------
  // Case toggle
  // ---------------------------------------------------------------------------

  /** A letter that has a case the toggle knows: ASCII or the Cyrillic block. */
  predicate HasCase(c: char) {
    IsUppercase(c) || IsLowercase(c) || IsCyrillicUpper(c) || IsCyrillicLower(c)
  }

  /** One step of the case-toggle loop: it changes exactly the letters that
      have a case. */
  function ToggleChar(ch: char): (r: char)
    ensures r != ch <==> HasCase(ch)
    ensures HasCase(r) <==> HasCase(ch)
  {
    if IsUppercase(ch) then Lowercased(ch)
    else if IsLowercase(ch) then Uppercased(ch)
    else if IsCyrillicUpper(ch) then CyrillicLower(ch)
    else
      var upper := CyrillicUpper(ch);
      if upper != ch then upper else ch
  }

  /** The text the case-toggle loop produces: as long as the selection, and
      different from it exactly at the letters that have a case. */
  function Toggled(text: seq<char>): (r: seq<char>)
    ensures |r| == |text|
    ensures forall i :: 0 <= i < |text| ==> (r[i] != text[i] <==> HasCase(text[i]))
  {
    seq(|text|, i requires 0 <= i < |text| => ToggleChar(text[i]))
  }

  /** The loop of `toggleSelectedCase` that builds `toggled`. */
  method ToggleSelectedChars(text: seq<char>) returns (toggled: seq<char>)
    ensures |toggled| == |text|
    ensures forall i :: 0 <= i < |text| ==> toggled[i] == ToggleChar(text[i])
    ensures toggled == Toggled(text)
  {
    toggled := [];
    for k := 0 to |text|
      invariant |toggled| == k
      invariant forall i :: 0 <= i < k ==> toggled[i] == ToggleChar(text[i])
    {
      var ch := text[k];
      if IsUppercase(ch) {
        toggled := toggled + [Lowercased(ch)];
      } else if IsLowercase(ch) {
        toggled := toggled + [Uppercased(ch)];
      } else if IsCyrillicUpper(ch) {
        toggled := toggled + [CyrillicLower(ch)];
      } else {
        var upper := CyrillicUpper(ch);
        if upper != ch {
          toggled := toggled + [upper];
        } else {
          toggled := toggled + [ch];
        }
      }
    }
  }

  /** A toggled letter has the other case of the same letter; everything
      else (digits, punctuation, other scripts) is left as it is. */
  lemma ToggleCharSwapsCase(c: char)
    ensures IsUppercase(c) ==> IsLowercase(ToggleChar(c)) && Uppercased(ToggleChar(c)) == c
    ensures IsLowercase(c) ==> IsUppercase(ToggleChar(c)) && Lowercased(ToggleChar(c)) == c
    ensures IsCyrillicUpper(c) ==> IsCyrillicLower(ToggleChar(c)) && CyrillicUpper(ToggleChar(c)) == c
    ensures IsCyrillicLower(c) ==> IsCyrillicUpper(ToggleChar(c)) && CyrillicLower(ToggleChar(c)) == c
    ensures !IsUppercase(c) && !IsLowercase(c) && OutsideBlock(c) ==> ToggleChar(c) == c
  {
  }

  /** Toggling twice gives the selection back. */
  lemma ToggleTwice(text: seq<char>)
    ensures Toggled(Toggled(text)) == text
  {
    forall i | 0 <= i < |text| ensures Toggled(Toggled(text))[i] == text[i] {
      ToggleCharSwapsCase(text[i]);
    }
  }

  /** "AbC3" becomes "aBc3". */
  lemma ToggleExample()
    ensures Toggled("AbC3") == "aBc3"
  {
  }
}
