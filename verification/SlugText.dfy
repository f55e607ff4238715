/** What a slug keeps of the intent it is made from (crates/memmux-worktree/src/slug.rs). */
module SlugText {
  import opened Prelude
  import opened Slug
  import Fnv
  import Radix

  /** A letter or digit and its small form: a capital stands for the letter at the same place. */
  predicate IsLetter(c: char, small: char) {
    || ('a' <= small <= 'z' && (c == small || c as int - 'A' as int == small as int - 'a' as int))
    || ('0' <= small <= '9' && c == small)
  }

  ghost predicate IsAnyLetter(c: char) { exists small :: IsLetter(c, small) }

  function SlugOf(s: string): string { JoinWords(Words(s)) }

  lemma LetterIff(c: char)
    ensures InWord(c) <==> IsAnyLetter(c)
    ensures forall small :: IsLetter(c, small) <==> InWord(c) && ToAsciiLower(c) == small
  {
    assert InWord(c) ==> IsLetter(c, ToAsciiLower(c));
  }

  lemma EmptyIff(s: string)
    ensures SlugOf(s) == "" <==> Words(s) == []
  {
    WordsAreWords(s);
    JoinIsSlug(Words(s));
    NoWords();
  }

  /** The slug of a text and one more character. A letter or digit is added in its small form, behind a
      dash if it starts a word that is not the first; anything else adds nothing. */
  lemma SlugGrows(s: string, c: char, small: char)
    ensures SlugOf("") == ""
    ensures !IsAnyLetter(c) ==> SlugOf(s + [c]) == SlugOf(s)
    ensures IsLetter(c, small) && SlugOf(s) == "" ==> SlugOf(s + [c]) == [small]
    ensures SlugOf(s) != "" ==> s != ""
    ensures IsLetter(c, small) && SlugOf(s) != "" ==>
      SlugOf(s + [c]) == SlugOf(s) + (if IsAnyLetter(s[|s| - 1]) then [small] else "-" + [small])
  {
    NoWords();
    EmptyIff(s);
    LetterIff(c);
    WordsSnoc(s, c);
    if s != "" { LetterIff(s[|s| - 1]); }
    assert EndsInWord(s) ==> Words(s) != [];
    if IsLetter(c, small) {
      LetterAdded(s, c);
    }
  }

  lemma LetterAdded(s: string, c: char)
    requires InWord(c)
    ensures SlugOf(s + [c]) ==
      if Words(s) == [] then [ToAsciiLower(c)]
      else SlugOf(s) + (if EndsInWord(s) then [ToAsciiLower(c)] else "-" + [ToAsciiLower(c)])
  {
    assert EndsInWord(s) ==> Words(s) != [];
    hide Words, JoinWords, InWord, EndsInWord, ToAsciiLower;
    WordsSnoc(s, c);
    var ws, l := Words(s), ToAsciiLower(c);
    if ws == [] {
      JoinOne([l]);
      assert ws + [[l]] == [[l]];
    } else if EndsInWord(s) {
      GrowLastWord(ws[..|ws| - 1], ws[|ws| - 1], l);
      assert ws == ws[..|ws| - 1] + [ws[|ws| - 1]];
    } else {
      JoinMore(ws, [l]);
      assert SlugOf(s) + "-" + [l] == SlugOf(s) + ("-" + [l]);
    }
  }

  lemma EndsInLetter(s: string)
    requires s != "" && IsAnyLetter(s[|s| - 1])
    ensures SlugOf(s) != ""
  {
    var n := |s| - 1;
    var small :| IsLetter(s[n], small);
    hide SlugOf, IsLetter;
    SlugGrows(s[..n], s[n], small);
    assert s == s[..n] + [s[n]];
  }

  // ----- what is kept -----

  /** The letters and digits of a text, in small. */
  ghost function Letters(s: string): string {
    if s == "" then ""
    else
      var n := |s| - 1;
      Letters(s[..n]) + if small :| IsLetter(s[n], small) then [small] else ""
  }

  function WithoutDashes(s: string): string {
    if s == "" then ""
    else
      var n := |s| - 1;
      WithoutDashes(s[..n]) + if s[n] == '-' then "" else [s[n]]
  }

  lemma DashlessSnoc(s: string, c: char)
    ensures WithoutDashes(s + [c]) == WithoutDashes(s) + if c == '-' then "" else [c]
  {
    assert (s + [c])[..|s|] == s;
  }

  lemma LettersSnoc(s: string, c: char, small: char)
    ensures IsLetter(c, small) ==> Letters(s + [c]) == Letters(s) + [small]
    ensures !IsAnyLetter(c) ==> Letters(s + [c]) == Letters(s)
  {
    hide IsLetter;
    LetterIff(c);
    assert (s + [c])[..|s|] == s && (s + [c])[|s|] == c;
    if IsLetter(c, small) {
      var chosen :| IsLetter(c, chosen) && Letters(s + [c]) == Letters(s) + [chosen];
    }
  }

  lemma LetterIsNoDash(c: char, small: char)
    requires IsLetter(c, small)
    ensures small != '-'
  {
  }

  lemma DashlessLetter(slug: string, small: char)
    requires small != '-'
    ensures WithoutDashes([small]) == [small]
    ensures WithoutDashes(slug + [small]) == WithoutDashes(slug) + [small]
    ensures WithoutDashes(slug + ("-" + [small])) == WithoutDashes(slug) + [small]
  {
    hide WithoutDashes;
    NothingDashless();
    DashlessSnoc("", small);
    DashlessSnoc(slug, small);
    DashlessSnoc(slug, '-');
    DashlessSnoc(slug + "-", small);
    assert "" + [small] == [small] && slug + "-" + [small] == slug + ("-" + [small]);
  }

  /** Apart from its dashes, a slug is exactly the letters and digits of the text, in small and in order. */
  lemma {:induction false} SlugKeepsLetters(s: string)
    ensures WithoutDashes(SlugOf(s)) == Letters(s)
  {
    if s == "" {
      SlugGrows("", ' ', ' ');
    } else {
      var n := |s| - 1;
      SlugKeepsLetters(s[..n]);
      assert s == s[..n] + [s[n]];
      LetterKept(s[..n], s[n]);
    }
  }

  lemma LetterKept(s: string, c: char)
    requires WithoutDashes(SlugOf(s)) == Letters(s)
    ensures WithoutDashes(SlugOf(s + [c])) == Letters(s + [c])
  {
    hide SlugOf, Letters, WithoutDashes, IsLetter;
    assert WithoutDashes("") == "" by { NothingDashless(); }
    if small :| IsLetter(c, small) {
      LetterIsNoDash(c, small);
      SlugGrows(s, c, small);
      LettersSnoc(s, c, small);
      DashlessLetter(SlugOf(s), small);
    } else {
      SlugGrows(s, c, ' ');
      LettersSnoc(s, c, ' ');
    }
  }

  lemma NothingDashless()
    ensures WithoutDashes("") == ""
  {
  }

  /** Two slugs as parts of one. */
  function Dashed(a: string, b: string): string {
    if a == "" then b else if b == "" then a else a + "-" + b
  }

  lemma DashedGrows(a: string, b: string, c: char)
    ensures b != "" ==> Dashed(a, b + [c]) == Dashed(a, b) + [c]
    ensures b != "" ==> Dashed(a, b + ("-" + [c])) == Dashed(a, b) + ("-" + [c])
    ensures Dashed(a, [c]) == if a == "" then [c] else a + ("-" + [c])
    ensures Dashed(a, "") == a && (Dashed(a, b) == "" <==> a == "" && b == "")
  {
  }

  /** Whatever stands between two parts of a text, it becomes one dash between their slugs, or nothing if
      one of them has no letter or digit. */
  lemma {:induction false} SlugOfParts(s: string, between: char, t: string)
    requires !IsAnyLetter(between)
    ensures SlugOf(s + [between] + t) == Dashed(SlugOf(s), SlugOf(t))
  {
    hide SlugOf, IsAnyLetter, IsLetter, Dashed;
    if t == "" {
      assert s + [between] + t == s + [between];
      SlugGrows(s, between, ' ');
      DashedGrows(SlugOf(s), "", ' ');
    } else {
      var n := |t| - 1;
      var init, c := t[..n], t[n];
      assert t == init + [c];
      var whole := s + [between] + init;
      assert s + [between] + t == whole + [c];
      SlugOfParts(s, between, init);
      var last := if init == "" then between else init[|init| - 1];
      assert whole[|whole| - 1] == last;
      if init != "" && IsAnyLetter(last) { EndsInLetter(init); }
      AddToParts(s, init, whole, last, c);
    }
  }

  lemma AddToParts(s: string, init: string, whole: string, last: char, c: char)
    requires SlugOf(whole) == Dashed(SlugOf(s), SlugOf(init)) && whole != "" && whole[|whole| - 1] == last
    requires init != "" ==> init[|init| - 1] == last
    requires IsAnyLetter(last) ==> SlugOf(init) != ""
    ensures SlugOf(whole + [c]) == Dashed(SlugOf(s), SlugOf(init + [c]))
  {
    hide SlugOf, Dashed;
    if small :| IsLetter(c, small) {
      hide IsLetter;
      SlugGrows(whole, c, small);
      SlugGrows(init, c, small);
      DashedGrows(SlugOf(s), SlugOf(init), small);
    } else {
      SlugGrows(whole, c, ' ');
      SlugGrows(init, c, ' ');
    }
  }

  // ----- the name -----

  lemma {:induction false} NoSlugIff(s: string)
    ensures SlugOf(s) == "" <==> forall i :: 0 <= i < |s| ==> !IsAnyLetter(s[i])
  {
    if s == "" {
      SlugGrows("", ' ', ' ');
    } else {
      var n := |s| - 1;
      NoSlugIff(s[..n]);
      assert s == s[..n] + [s[n]];
      if small :| IsLetter(s[n], small) {
        EndsInLetter(s);
      } else {
        SlugGrows(s[..n], s[n], ' ');
      }
    }
  }

  lemma CutIs(s: string, max: nat)
    requires IsSlug(s) && |s| > max >= 1
    ensures TruncateOnBoundary(s, max) == if s[max - 1] == '-' then s[..max - 1] else s[..max]
  {
    hide IsSlug, TrimDashes;
    var dash := s[max - 1] == '-';
    var keep := if dash then max - 1 else max;
    if dash { DashesAreApart(s, max - 1); }
    SlugPrefix(s, keep);
    TrimFramed(false, s[..keep], dash);
    assert s[..max] == Framed(false, s[..keep], dash);
  }

  lemma BaseIs(intent: string)
    ensures var s := SlugOf(intent);
      Base(intent) == if s == "" then "task" else if |s| <= 24 then s else if s[23] == '-' then s[..23] else s[..24]
  {
    var s := SlugOf(intent);
    if |s| > 24 {
      WordsAreWords(intent);
      JoinIsSlug(Words(intent));
      CutIs(s, 24);
    }
  }

  /** What a generated name tells. In front of the last dash stands the slug of the intent, if it has no more
      than 24 characters; else its first 24, or 23 when a dash would be the last; and "task" exactly
      when the intent has no letter or digit. Behind it stand seven base-36 digits that read as the
      digest of intent and seed modulo 36^7. */
  lemma NameTells(utf8: string -> Bytes, intent: string, uniqueness: string)
    ensures var s, name := SlugOf(intent), Generated(utf8, intent, uniqueness);
      && |name| >= 9 && name[|name| - 8] == '-'
      && name[..|name| - 8] ==
           (if s == "" then "task" else if |s| <= 24 then s else if s[23] == '-' then s[..23] else s[..24])
      && (s == "" <==> forall i :: 0 <= i < |intent| ==> !IsAnyLetter(intent[i]))
    ensures var name := Generated(utf8, intent, uniqueness);
      && Radix.Power(36, 7) == 78_364_164_096
      && Radix.Read(name[|name| - 7..], 36) == Fnv.Digest(utf8(intent + "\0" + uniqueness)) % 78_364_164_096
  {
    hide Radix.Power, Fnv.Digest, SlugOf;
    var bytes := utf8(Seeded(intent, uniqueness));
    BaseIs(intent);
    BaseIsSlug(intent);
    NoSlugIff(intent);
    SuffixIsWord(bytes);
    ThirtySixToTheSeventh();
    Radix.FixedDigitsValue(Fnv.Digest(bytes), 36, 7);
    Radix.SpellInverse(Radix.FixedDigits(Fnv.Digest(bytes), 36, 7));
    var name := Generated(utf8, intent, uniqueness);
    assert name[..|name| - 8] == Base(intent) && name[|name| - 7..] == Suffix(bytes);
  }
}
