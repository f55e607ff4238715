/** Task slugs and branch names (crates/memmux-worktree/src/slug.rs). The UTF-8 encoding of a
    string is a parameter: only the hash suffix depends on it. */
module Slug {
  import opened Prelude
  import Radix
  import Fnv

  const MAX_INTENT_LEN: nat := 24

  // ----- slugify -----

  function ToAsciiLower(c: char): char {
    if 'A' <= c <= 'Z' then (c as int + 32) as char else c
  }

  /** A letter or digit of a slug. */
  predicate IsWordChar(c: char) { 'a' <= c <= 'z' || '0' <= c <= '9' }

  predicate InWord(c: char) { IsWordChar(ToAsciiLower(c)) }

  predicate EndsInWord(s: string) { s != "" && InWord(s[|s| - 1]) }

  /** The maximal runs of ASCII letters and digits, in lower case. */
  function Words(s: string): (ws: seq<string>)
    ensures EndsInWord(s) ==> ws != []
  {
    if s == "" then []
    else
      var n := |s| - 1;
      var ws := Words(s[..n]);
      if !InWord(s[n]) then ws
      else if EndsInWord(s[..n]) then ws[..|ws| - 1] + [ws[|ws| - 1] + [ToAsciiLower(s[n])]]
      else ws + [[ToAsciiLower(s[n])]]
  }

  function JoinWords(ws: seq<string>): string {
    if ws == [] then ""
    else if |ws| == 1 then ws[0]
    else JoinWords(ws[..|ws| - 1]) + "-" + ws[|ws| - 1]
  }

  ghost predicate IsWord(w: string) {
    w != "" && forall i :: 0 <= i < |w| ==> IsWordChar(w[i])
  }

  ghost predicate AllWords(ws: seq<string>) {
    forall i :: 0 <= i < |ws| ==> IsWord(ws[i])
  }

  lemma {:induction false} WordsAreWords(s: string)
    ensures AllWords(Words(s))
  {
    if s != "" { WordsAreWords(s[..|s| - 1]); }
  }

  /** What a slug may look like: lower-case words, single dashes between them. */
  ghost predicate IsSlug(s: string) {
    && (forall i :: 0 <= i < |s| ==> IsWordChar(s[i]) || s[i] == '-')
    && (s != "" ==> s[0] != '-' && s[|s| - 1] != '-')
    && (forall i :: 0 <= i < |s| - 1 ==> !DoubleDash(s, i))
  }

  predicate DoubleDash(s: string, i: nat)
    requires i + 1 < |s|
  {
    s[i] == '-' && s[i + 1] == '-'
  }

  lemma AppendWord(s: string, w: string)
    requires IsSlug(s) && s != "" && IsWord(w)
    ensures IsSlug(s + "-" + w)
  {
    var t := s + "-" + w;
    forall i | 0 <= i < |t| - 1 ensures !DoubleDash(t, i) {
      if i < |s| - 1 { assert !DoubleDash(s, i); }
    }
  }

  lemma {:induction false} JoinIsSlug(ws: seq<string>)
    requires AllWords(ws)
    ensures IsSlug(JoinWords(ws)) && (ws != [] ==> JoinWords(ws) != "")
  {
    if |ws| > 1 {
      JoinIsSlug(ws[..|ws| - 1]);
      AppendWord(JoinWords(ws[..|ws| - 1]), ws[|ws| - 1]);
    }
  }

  /** Strip dashes from both ends. */
  function TrimDashes(s: string): string {
    if s != "" && s[0] == '-' then TrimDashes(s[1..])
    else if s != "" && s[|s| - 1] == '-' then TrimDashes(s[..|s| - 1])
    else s
  }

  lemma TrimLead(s: string)
    ensures TrimDashes("-" + s) == TrimDashes(s)
  {
    assert ("-" + s)[1..] == s;
  }

  lemma TrimTrail(s: string)
    requires s != "" && s[0] != '-'
    ensures TrimDashes(s + "-") == TrimDashes(s)
  {
    assert (s + "-")[..|s|] == s;
  }

  lemma NothingToTrim(s: string)
    requires IsSlug(s)
    ensures TrimDashes(s) == s
  {
  }

  /** Text with a dash in front, behind, both or neither. */
  function Framed(lead: bool, s: string, trail: bool): string {
    (if lead then "-" else "") + s + (if trail then "-" else "")
  }

  lemma TrimFramed(lead: bool, s: string, trail: bool)
    requires IsSlug(s) && (s == "" ==> !trail)
    ensures TrimDashes(Framed(lead, s, trail)) == s
  {
    assert s != "" ==> s[0] != '-';
    hide IsSlug, TrimDashes;
    NothingToTrim(s);
    var t := s + if trail then "-" else "";
    if trail { TrimTrail(s); } else { assert t == s; }
    if lead {
      TrimLead(t);
      assert Framed(lead, s, trail) == "-" + t;
    } else {
      assert Framed(lead, s, trail) == t;
    }
  }

  lemma FrameGrows(lead: bool, s: string, c: char)
    ensures Framed(lead, s + [c], false) == Framed(lead, s, false) + [c]
    ensures Framed(lead, s + "-" + [c], false) == Framed(lead, s, true) + [c]
    ensures Framed(lead, s, true) == Framed(lead, s, false) + "-"
  {
  }

  /** The output buffer after some input: a dash for anything in front of the first word, the
      words, and a dash for what follows the last one. */
  function Buffered(s: string): string {
    Framed(s != "" && !InWord(s[0]), JoinWords(Words(s)), Words(s) != [] && !EndsInWord(s))
  }

  lemma {:induction false} NoWordsMeansNoneSeen(s: string)
    requires Words(s) == []
    ensures forall i :: 0 <= i < |s| ==> !InWord(s[i])
  {
    if s != "" { NoWordsMeansNoneSeen(s[..|s| - 1]); }
  }

  lemma BufferedStep(s: string, c: char)
    ensures Buffered(s + [c]) ==
      if InWord(c) then Buffered(s) + [ToAsciiLower(c)]
      else if s == "" || EndsInWord(s) then Buffered(s) + "-"
      else Buffered(s)
  {
    assert EndsInWord(s) ==> Words(s) != [] && s != "";
    hide Words, EndsInWord, InWord, JoinWords, Framed;
    var t, ws, l := s + [c], Words(s), ToAsciiLower(c);
    assert t[0] == if s == "" then c else s[0];
    WordsSnoc(s, c);
    NoWords();
    FrameGrows(s != "" && !InWord(s[0]), JoinWords(ws), l);
    if ws == [] {
      NoWordsMeansNoneSeen(s);
      JoinOne([l]);
      FrameGrows(false, "", l);
      assert "" + [l] == [l] && Framed(false, "", false) + "-" == Framed(true, "", false) by { EmptyFrames(); }
    } else if InWord(c) {
      var n := |ws| - 1;
      if EndsInWord(s) {
        GrowLastWord(ws[..n], ws[n], l);
        assert ws == ws[..n] + [ws[n]];
      } else {
        JoinMore(ws, [l]);
      }
    }
  }

  lemma EmptyFrames()
    ensures Framed(false, "", false) == "" && Framed(true, "", false) == "-"
  {
  }

  lemma JoinOne(w: string)
    ensures JoinWords([w]) == w
  {
  }

  lemma JoinMore(ws: seq<string>, w: string)
    requires ws != []
    ensures JoinWords(ws + [w]) == JoinWords(ws) + "-" + w
  {
    assert (ws + [w])[..|ws|] == ws;
  }

  lemma GrowLastWord(ws: seq<string>, w: string, c: char)
    ensures JoinWords(ws + [w + [c]]) == JoinWords(ws + [w]) + [c]
  {
    assert (ws + [w + [c]])[..|ws|] == ws && (ws + [w])[..|ws|] == ws;
    if ws != [] { assert JoinWords(ws) + "-" + (w + [c]) == JoinWords(ws) + "-" + w + [c]; }
  }

  /** The words of the input, joined by single dashes. */
  method Slugify(input: string) returns (r: string)
    ensures r == JoinWords(Words(input)) && IsSlug(r)
  {
    var out := "";
    var prevDash := false;
    for i := 0 to |input|
      invariant out == Buffered(input[..i])
      invariant prevDash == (i > 0 && !InWord(input[i - 1]))
    {
      assert input[..i + 1] == input[..i] + [input[i]];
      assert i > 0 ==> input[..i][i - 1] == input[i - 1];
      BufferedStep(input[..i], input[i]);
      var c := ToAsciiLower(input[i]);
      if IsWordChar(c) {
        out := out + [c];
        prevDash := false;
      } else if !prevDash {
        out := out + "-";
        prevDash := true;
      }
    }
    assert input[..|input|] == input;
    WordsAreWords(input);
    JoinIsSlug(Words(input));
    TrimFramed(input != "" && !InWord(input[0]), JoinWords(Words(input)), Words(input) != [] && !EndsInWord(input));
    r := TrimDashes(out);
  }

  // ----- slugify again -----

  lemma LowerKeepsWordChar(c: char)
    ensures IsWordChar(c) ==> ToAsciiLower(c) == c
    ensures !InWord('-')
  {
  }

  lemma WordsSnoc(s: string, c: char)
    ensures EndsInWord(s + [c]) == InWord(c)
    ensures var ws := Words(s);
      Words(s + [c]) ==
        if !InWord(c) then ws
        else if EndsInWord(s) then ws[..|ws| - 1] + [ws[|ws| - 1] + [ToAsciiLower(c)]]
        else ws + [[ToAsciiLower(c)]]
  {
    assert (s + [c])[..|s|] == s;
  }

  lemma {:induction false} WordsAppendWord(s: string, w: string)
    requires IsWord(w) && !EndsInWord(s)
    ensures Words(s + w) == Words(s) + [w] && EndsInWord(s + w)
  {
    hide Words, EndsInWord;
    var n := |w| - 1;
    var init, last := w[..n], w[n];
    assert w == init + [last];
    assert s + w == (s + init) + [last];
    LowerKeepsWordChar(last);
    WordsSnoc(s + init, last);
    if n == 0 {
      assert s + init == s;
    } else {
      WordsAppendWord(s, init);
      assert (Words(s) + [init])[..|Words(s)|] == Words(s);
    }
  }

  lemma NoWords()
    ensures Words("") == [] && !EndsInWord("") && JoinWords([]) == ""
  {
  }

  lemma WordsAppendDashed(s: string, w: string)
    requires IsWord(w)
    ensures Words(s + "-" + w) == Words(s) + [w]
  {
    hide Words, EndsInWord;
    LowerKeepsWordChar('-');
    WordsSnoc(s, '-');
    WordsAppendWord(s + "-", w);
  }

  lemma {:induction false} WordsOfJoin(ws: seq<string>)
    requires AllWords(ws)
    ensures Words(JoinWords(ws)) == ws
  {
    hide Words, EndsInWord;
    NoWords();
    if |ws| == 1 {
      WordsAppendWord("", ws[0]);
      assert "" + ws[0] == ws[0];
    } else if |ws| > 1 {
      var n := |ws| - 1;
      WordsOfJoin(ws[..n]);
      WordsAppendDashed(JoinWords(ws[..n]), ws[n]);
      assert ws == ws[..n] + [ws[n]];
    }
  }

  /** A slug is its own slug. */
  lemma SlugifyIsIdempotent(s: string)
    ensures var slug := JoinWords(Words(s)); JoinWords(Words(slug)) == slug
  {
    WordsAreWords(s);
    WordsOfJoin(Words(s));
  }

  /** Every string of slug shape is its own slug: the slugs are exactly the fixed points. */
  lemma {:induction false} SlugIsFixed(s: string)
    requires IsSlug(s)
    ensures JoinWords(Words(s)) == s
  {
    hide Words, EndsInWord, IsSlug;
    NoWords();
    if s != "" {
      var k := LastWordStart(s);
      var w := s[k..];
      if k == 0 {
        assert s == "" + w;
        WordsAppendWord("", w);
      } else {
        var rest := s[..k - 1];
        assert s == rest + "-" + w;
        SlugIsFixed(rest);
        WordsAppendDashed(rest, w);
        assert (Words(rest) + [w])[..|Words(rest)|] == Words(rest);
      }
    }
  }

  lemma LastWordStart(s: string) returns (k: nat)
    requires IsSlug(s) && s != ""
    ensures k < |s| && IsWord(s[k..])
    ensures k > 0 ==> k >= 2 && s[k - 1] == '-' && IsSlug(s[..k - 1])
  {
    k := |s| - 1;
    while k > 0 && s[k - 1] != '-'
      invariant k < |s| && IsWord(s[k..])
    {
      k := k - 1;
      assert s[k..] == [s[k]] + s[k + 1..];
    }
    if k > 0 {
      var rest := s[..k - 1];
      assert s[k - 1] == '-' && s[0] != '-';
      assert !DoubleDash(s, k - 2);
      forall i | 0 <= i < |rest| - 1 ensures !DoubleDash(rest, i) {
        assert !DoubleDash(s, i);
      }
    }
  }

  // ----- truncation -----

  /** Cut to `max` characters and strip dashes. A slug is ASCII, so every index is a character
      boundary. */
  function TruncateOnBoundary(s: string, max: nat): string {
    if |s| <= max then s else TrimDashes(s[..max])
  }

  lemma SlugPrefix(s: string, keep: nat)
    requires IsSlug(s) && 0 < keep <= |s| && s[keep - 1] != '-'
    ensures IsSlug(s[..keep])
  {
    var kept := s[..keep];
    forall i | 0 <= i < |kept| - 1 ensures !DoubleDash(kept, i) {
      assert !DoubleDash(s, i);
    }
  }

  lemma DashesAreApart(s: string, i: nat)
    requires IsSlug(s) && i < |s| && s[i] == '-'
    ensures i > 0 && s[i - 1] != '-'
  {
    if i > 0 { assert !DoubleDash(s, i - 1); }
  }

  /** The cut slug is a prefix and a slug; at most one character more than necessary is lost. */
  lemma TruncatedIsSlug(s: string, max: nat)
    requires IsSlug(s) && max >= 1
    ensures var r := TruncateOnBoundary(s, max);
      && IsSlug(r) && |r| <= max && r == s[..|r|]
      && (s != "" ==> r != "")
      && (|s| > max ==> |r| >= max - 1)
  {
    hide IsSlug, TrimDashes;
    if |s| > max {
      var dash := s[max - 1] == '-';
      var keep := if dash then max - 1 else max;
      if dash { DashesAreApart(s, max - 1); }
      SlugPrefix(s, keep);
      TrimFramed(false, s[..keep], dash);
      assert s[..max] == Framed(false, s[..keep], dash);
    } else {
      assert s[..|s|] == s;
    }
  }

  // ----- the hash suffix -----

  function Reverse(ds: seq<nat>): seq<nat> {
    if ds == [] then [] else Reverse(ds[1..]) + [ds[0]]
  }

  /** The base-36 digits of a number: pushed lowest first, then reversed. */
  method Base36(n: Fnv.u64) returns (s: string)
    ensures s == Radix.Show(n, 36) && Radix.Read(s, 36) == n
  {
    hide Radix.Digits, Radix.Spell;
    Radix.ReadShow(n, 36);
    Radix.DigitsInRange(n, 36);
    if n == 0 {
      ShowZero();
      return "0";
    }
    var buf: seq<nat> := [];
    var rest: nat := n;
    while rest > 0
      invariant Radix.Digits(n, 36) == Higher(rest) + Reverse(buf)
    {
      PushDigit(rest, buf);
      buf := buf + [rest % 36];
      rest := rest / 36;
    }
    assert Higher(0) + Reverse(buf) == Reverse(buf);
    s := Radix.Spell(Reverse(buf));
  }

  lemma ShowZero()
    ensures Radix.Show(0, 36) == "0"
  {
  }

  /** The digits still to be pushed. */
  function Higher(rest: nat): seq<nat> {
    if rest == 0 then [] else Radix.Digits(rest, 36)
  }

  lemma PushDigit(rest: nat, buf: seq<nat>)
    requires rest > 0
    ensures Higher(rest) + Reverse(buf) == Higher(rest / 36) + Reverse(buf + [rest % 36])
  {
    assert Higher(rest) == Higher(rest / 36) + [rest % 36];
    ReverseSnoc(buf, rest % 36);
    assert Higher(rest / 36) + [rest % 36] + Reverse(buf) == Higher(rest / 36) + ([rest % 36] + Reverse(buf));
  }

  lemma {:induction false} ReverseSnoc(ds: seq<nat>, d: nat)
    ensures Reverse(ds + [d]) == [d] + Reverse(ds)
  {
    if ds != [] {
      assert (ds + [d])[1..] == ds[1..] + [d];
      ReverseSnoc(ds[1..], d);
    }
  }

  /** The low seven base-36 digits of the digest. */
  function Suffix(bytes: Bytes): string {
    Radix.FixedDigitsValue(Fnv.Digest(bytes), 36, 7);
    Radix.Spell(Radix.FixedDigits(Fnv.Digest(bytes), 36, 7))
  }

  method ShortHash(bytes: Bytes) returns (s: string)
    ensures s == Suffix(bytes)
  {
    hide Radix.Show, Radix.Zeros, Radix.FixedDigits, Radix.Spell;
    var h := Fnv.Fold(bytes);
    var b36 := Base36(h);
    ghost var pad := 0;
    NoZeros(b36);
    while |b36| < 7
      invariant b36 == Radix.Zeros(pad) + Radix.Show(h, 36)
      decreases 7 - |b36|
    {
      OneMoreZero(pad, Radix.Show(h, 36));
      b36 := "0" + b36;
      pad := pad + 1;
    }
    LastSeven(h, pad);
    s := b36[|b36| - 7..];
  }

  lemma NoZeros(s: string)
    ensures Radix.Zeros(0) + s == s
  {
  }

  lemma OneMoreZero(pad: nat, s: string)
    ensures "0" + (Radix.Zeros(pad) + s) == Radix.Zeros(pad + 1) + s
  {
    assert "0" + Radix.Zeros(pad) == Radix.Zeros(pad + 1);
  }

  lemma LastSeven(h: nat, pad: nat)
    requires |Radix.Zeros(pad) + Radix.Show(h, 36)| >= 7
    ensures |Radix.FixedDigits(h, 36, 7)| == 7
    ensures forall i :: 0 <= i < 7 ==> Radix.FixedDigits(h, 36, 7)[i] < 36
    ensures var padded := Radix.Zeros(pad) + Radix.Show(h, 36);
      padded[|padded| - 7..] == Radix.Spell(Radix.FixedDigits(h, 36, 7))
  {
    hide Radix.Digits, Radix.FixedDigits;
    var zeros: seq<nat> := seq(pad, _ => 0);
    var ds := Radix.Digits(h, 36);
    Radix.DigitsInRange(h, 36);
    Radix.FixedDigitsValue(h, 36, 7);
    Radix.LastDigits(h, 36, 7, zeros);
    var all := zeros + ds;
    assert Radix.DigitChar(0) == '0';
    assert Radix.Spell(zeros) == Radix.Zeros(pad);
    assert Radix.Spell(all) == Radix.Spell(zeros) + Radix.Spell(ds);
  }

  // ----- the slug and its branch -----

  function Base(intent: string): string {
    var s := JoinWords(Words(intent));
    if s == "" then "task" else TruncateOnBoundary(s, MAX_INTENT_LEN)
  }

  function Seeded(intent: string, uniqueness: string): string { intent + "\0" + uniqueness }

  function Generated(utf8: string -> Bytes, intent: string, uniqueness: string): string {
    Base(intent) + "-" + Suffix(utf8(Seeded(intent, uniqueness)))
  }

  method Generate(utf8: string -> Bytes, intent: string, uniqueness: string) returns (slug: string)
    ensures slug == Generated(utf8, intent, uniqueness)
  {
    var s := Slugify(intent);
    var base := if s == "" then "task" else TruncateOnBoundary(s, MAX_INTENT_LEN);
    var suffix := ShortHash(utf8(Seeded(intent, uniqueness)));
    slug := base + "-" + suffix;
  }

  function BranchName(slug: string): string { "memmux/" + slug }

  lemma SuffixIsWord(bytes: Bytes)
    ensures IsWord(Suffix(bytes)) && |Suffix(bytes)| == 7
  {
    Radix.FixedDigitsValue(Fnv.Digest(bytes), 36, 7);
    var ds := Radix.FixedDigits(Fnv.Digest(bytes), 36, 7);
    forall i | 0 <= i < 7 ensures IsWordChar(Suffix(bytes)[i]) {
      Radix.DigitCharInverse(ds[i]);
    }
  }

  lemma BaseIsSlug(intent: string)
    ensures IsSlug(Base(intent)) && 1 <= |Base(intent)| <= 24
  {
    WordsAreWords(intent);
    JoinIsSlug(Words(intent));
    TruncatedIsSlug(JoinWords(Words(intent)), MAX_INTENT_LEN);
  }

  /** Every generated name is a slug of at most 32 characters: the base, a dash and seven
      base-36 digits. */
  lemma GeneratedIsSlug(utf8: string -> Bytes, intent: string, uniqueness: string)
    ensures var slug := Generated(utf8, intent, uniqueness);
      && IsSlug(slug) && 9 <= |slug| <= 32
      && slug[|slug| - 8] == '-' && IsWord(slug[|slug| - 7..])
  {
    BaseIsSlug(intent);
    var suffix := Suffix(utf8(Seeded(intent, uniqueness)));
    SuffixIsWord(utf8(Seeded(intent, uniqueness)));
    AppendWord(Base(intent), suffix);
    var slug := Generated(utf8, intent, uniqueness);
    assert slug[|slug| - 7..] == suffix;
  }

  // ----- git references -----

  predicate Contains(s: string, sub: string) {
    exists i | 0 <= i <= |s| :: OccursAt(s, sub, i)
  }

  predicate OccursAt(s: string, sub: string, i: nat) {
    i + |sub| <= |s| && s[i..i + |sub|] == sub
  }

  predicate EndsWith(s: string, sub: string) {
    |sub| <= |s| && s[|s| - |sub|..] == sub
  }

  /** The components of a reference, as `split('/')` yields them. */
  function Components(s: string): seq<string> {
    if s == "" then [""]
    else
      var n := |s| - 1;
      var cs := Components(s[..n]);
      if s[n] == '/' then cs + [""]
      else if cs == [] then [[s[n]]]
      else cs[..|cs| - 1] + [cs[|cs| - 1] + [s[n]]]
  }

  predicate IsControl(c: char) {
    c as int < 0x20 || 0x7f <= c as int <= 0x9f
  }

  predicate GoodComponent(c: string) { c != "" && c[0] != '.' && c[|c| - 1] != '.' }

  predicate GoodRefChar(c: char) { !IsControl(c) && c !in " ~^:?*[\\" && c as int != 0x7f }

  predicate IsValidRef(name: string) {
    && !(name == "" || name[0] == '/' || name[|name| - 1] == '/' || EndsWith(name, ".lock"))
    && !(Contains(name, "..") || Contains(name, "//") || Contains(name, "@{"))
    && (forall i :: 0 <= i < |Components(name)| ==> GoodComponent(Components(name)[i]))
    && (forall i :: 0 <= i < |name| ==> GoodRefChar(name[i]))
  }

  lemma ComponentsSnoc(s: string, c: char)
    ensures Components(s) != []
    ensures var cs := Components(s);
      Components(s + [c]) == if c == '/' then cs + [""] else cs[..|cs| - 1] + [cs[|cs| - 1] + [c]]
  {
    SomeComponent(s);
    assert (s + [c])[..|s|] == s;
  }

  lemma {:induction false} SomeComponent(s: string)
    ensures Components(s) != []
  {
    if s != "" { SomeComponent(s[..|s| - 1]); }
  }

  /** A part without a slash, appended after one, is the next component. */
  lemma {:induction false} OneComponent(s: string, t: string)
    requires forall i :: 0 <= i < |t| ==> t[i] != '/'
    ensures Components(s + "/" + t) == Components(s) + [t]
  {
    hide Components;
    if t == "" {
      ComponentsSnoc(s, '/');
      assert s + "/" + t == s + "/";
    } else {
      var n := |t| - 1;
      OneComponent(s, t[..n]);
      ComponentsSnoc(s + "/" + t[..n], t[n]);
      assert t == t[..n] + [t[n]];
      assert s + "/" + t == s + "/" + t[..n] + [t[n]];
      assert (Components(s) + [t[..n]])[..|Components(s)|] == Components(s);
    }
  }

  lemma NoText()
    ensures Components("") == [""]
  {
  }

  lemma {:induction false} SingleComponent(s: string)
    requires forall i :: 0 <= i < |s| ==> s[i] != '/'
    ensures Components(s) == [s]
  {
    hide Components;
    if s == "" {
      NoText();
    } else {
      var n := |s| - 1;
      var init, last := s[..n], s[n];
      assert s == init + [last];
      SingleComponent(init);
      ComponentsSnoc(init, last);
      assert [init][..0] == [];
    }
  }

  /** A text of two parts occurs nowhere if its first character does not occur with the second
      right behind it. */
  lemma NotContained(s: string, x: char, y: char)
    requires forall i :: 0 <= i < |s| - 1 && s[i] == x ==> s[i + 1] != y
    ensures !Contains(s, [x, y])
  {
    forall i | 0 <= i <= |s| && OccursAt(s, [x, y], i) ensures false {
      OccursMeans(s, x, y, i);
    }
  }

  lemma OccursMeans(s: string, x: char, y: char, i: nat)
    requires OccursAt(s, [x, y], i)
    ensures i + 1 < |s| && s[i] == x && s[i + 1] == y
  {
    assert s[i..i + 2][0] == s[i] && s[i..i + 2][1] == s[i + 1];
  }

  lemma LockMeans(s: string)
    requires EndsWith(s, ".lock")
    ensures |s| >= 5 && s[|s| - 5] == '.'
  {
    assert s[|s| - 5..][0] == s[|s| - 5];
  }

  /** The branch of any slug is a valid reference. */
  lemma SlugBranchIsValid(slug: string)
    requires IsSlug(slug) && slug != ""
    ensures IsValidRef(BranchName(slug))
  {
    hide Contains, IsSlug, EndsWith, Components, GoodRefChar;
    var name := BranchName(slug);
    BranchChars(slug);
    SingleComponent("memmux");
    OneComponent("memmux", slug);
    assert name == "memmux" + "/" + slug;
    assert Components(name) == ["memmux", slug];
    NotContained(name, '.', '.');
    NotContained(name, '/', '/');
    NotContained(name, '@', '{');
    assert name[|name| - 1] == slug[|slug| - 1] && name[0] == 'm';
    if EndsWith(name, ".lock") { LockMeans(name); }
  }

  lemma BranchChars(slug: string)
    requires IsSlug(slug) && slug != ""
    ensures var name := BranchName(slug);
      && (forall i :: 0 <= i < |name| ==>
            GoodRefChar(name[i]) && name[i] != '.' && name[i] != '@' && (name[i] == '/' ==> i == 6))
      && (forall i :: 0 <= i < |slug| ==> slug[i] != '/')
      && slug[0] != '.' && slug[|slug| - 1] != '.' && slug[|slug| - 1] != '/'
  {
    var name := BranchName(slug);
    forall i | 0 <= i < |name|
      ensures GoodRefChar(name[i]) && name[i] != '.' && name[i] != '@' && (name[i] == '/' ==> i == 6)
    {
      if i >= 7 { assert name[i] == slug[i - 7]; }
    }
  }

  /** Whatever the intent and the seed, the branch is a valid git reference. */
  lemma GeneratedBranchIsValid(utf8: string -> Bytes, intent: string, uniqueness: string)
    ensures IsValidRef(BranchName(Generated(utf8, intent, uniqueness)))
  {
    GeneratedIsSlug(utf8, intent, uniqueness);
    SlugBranchIsValid(Generated(utf8, intent, uniqueness));
  }

  // ----- collisions -----

  /** The module promises distinct names for tasks of the same intent. They are distinct exactly
      when the digests of intent and seed differ in their low seven base-36 digits. */
  lemma NamesDifferIff(utf8: string -> Bytes, intent: string, a: string, b: string)
    ensures Radix.Power(36, 7) > 0
    ensures Generated(utf8, intent, a) != Generated(utf8, intent, b)
       <==> Fnv.Digest(utf8(Seeded(intent, a))) % Radix.Power(36, 7)
            != Fnv.Digest(utf8(Seeded(intent, b))) % Radix.Power(36, 7)
  {
    var x, y := utf8(Seeded(intent, a)), utf8(Seeded(intent, b));
    var base := Base(intent);
    assert Generated(utf8, intent, a)[|base| + 1..] == Suffix(x);
    assert Generated(utf8, intent, b)[|base| + 1..] == Suffix(y);
    Radix.FixedDigitsValue(Fnv.Digest(x), 36, 7);
    Radix.FixedDigitsValue(Fnv.Digest(y), 36, 7);
    Radix.FixedDigitsEqual(Fnv.Digest(x), Fnv.Digest(y), 36, 7);
    Radix.SpellInverse(Radix.FixedDigits(Fnv.Digest(x), 36, 7));
    Radix.SpellInverse(Radix.FixedDigits(Fnv.Digest(y), 36, 7));
  }

  lemma SuffixModulus()
    ensures Radix.Power(36, 7) == 16384 * 4782969 && Fnv.IsModulus(16384, 64, 0x4_0000_0000_0000)
  {
    ThirtySixToTheSeventh();
  }

  /** The suffix keeps the low fourteen bits of the digest, since 36^7 is 2^14 times an odd number.
      So whenever the bytes of intent and seed differ in one place only, the names differ. */
  lemma OneByteKeepsNamesApart(utf8: string -> Bytes, intent: string, a: string, b: string)
    requires Fnv.DifferInOneByte(utf8(Seeded(intent, a)), utf8(Seeded(intent, b)))
    ensures Generated(utf8, intent, a) != Generated(utf8, intent, b)
  {
    hide Generated, Seeded, Fnv.Digest, Fnv.DifferInOneByte, Radix.Power;
    SuffixModulus();
    var x, y := Fnv.Digest(utf8(Seeded(intent, a))), Fnv.Digest(utf8(Seeded(intent, b)));
    Fnv.OneByteChangesLowBits(utf8(Seeded(intent, a)), utf8(Seeded(intent, b)), 16384, 64, 0x4_0000_0000_0000);
    Radix.ModMod(x, 16384, 4782969);
    Radix.ModMod(y, 16384, 4782969);
    NamesDifferIff(utf8, intent, a, b);
  }

  /** UTF-8 encodes character by character. */
  ghost predicate Concatenates(utf8: string -> Bytes) {
    forall s, t :: utf8(s + t) == utf8(s) + utf8(t)
  }

  /** What a caller can rely on: seeds of any intent that differ in one ASCII character, such as
      task ids that differ in one digit, never give the same name. */
  lemma OneCharacterKeepsNamesApart(utf8: string -> Bytes, intent: string, before: string,
                                    x: char, y: char, after: string)
    requires Concatenates(utf8) && KeepsAscii(utf8)
    requires x != y && x as int < 128 && y as int < 128
    ensures Generated(utf8, intent, before + [x] + after) != Generated(utf8, intent, before + [y] + after)
  {
    hide Generated, Concatenates, KeepsAscii, Seeded;
    var start := intent + "\0" + before;
    SeedSplits(utf8, intent, before, x, after);
    SeedSplits(utf8, intent, before, y, after);
    var p, q := utf8(Seeded(intent, before + [x] + after)), utf8(Seeded(intent, before + [y] + after));
    var i := |utf8(start)|;
    assert p[i] != q[i] && p[..i] == q[..i] && p[i + 1..] == q[i + 1..];
    OneByteKeepsNamesApart(utf8, intent, before + [x] + after, before + [y] + after);
  }

  lemma SeedSplits(utf8: string -> Bytes, intent: string, before: string, x: char, after: string)
    requires Concatenates(utf8) && KeepsAscii(utf8) && x as int < 128
    ensures utf8(Seeded(intent, before + [x] + after)) == utf8(intent + "\0" + before) + [x as int] + utf8(after)
  {
    hide Concatenates, KeepsAscii;
    var start := intent + "\0" + before;
    assert Seeded(intent, before + [x] + after) == start + [x] + after;
    EncodeParts(utf8, start + [x], after);
    EncodeParts(utf8, start, [x]);
    EncodeOne(utf8, x);
  }

  lemma EncodeParts(utf8: string -> Bytes, s: string, t: string)
    requires Concatenates(utf8)
    ensures utf8(s + t) == utf8(s) + utf8(t)
  {
  }

  lemma EncodeOne(utf8: string -> Bytes, x: char)
    requires KeepsAscii(utf8) && x as int < 128
    ensures utf8([x]) == [x as int]
  {
    assert AsciiBytes([x]) == [x as int];
  }

  /** One step of the digest, with its exclusive or and its quotient spelled out. */
  lemma NextDigest(bytes: Bytes, b: byte, high: nat, low: nat, xor: nat, q: nat, next: nat)
    requires Fnv.Digest(bytes) == high * 256 + low && low < 256
    requires xor == Fnv.Xor8(low, b)
    requires (high * 256 + xor) * Fnv.FNV_PRIME == q * TWO_TO_THE_64 + next && next < TWO_TO_THE_64
    ensures Fnv.Digest(bytes + [b]) == next
  {
    hide Fnv.Xor, Fnv.Xor8, Fnv.Digest;
    Fnv.DigestSnoc(bytes, b);
    Fnv.XorSpelled(low, b);
    Radix.ModUnique(Fnv.Digest(bytes), 256, high, low);
    Radix.ModUnique((high * 256 + xor) * Fnv.FNV_PRIME, TWO_TO_THE_64, q, next);
  }

  /** ASCII text is its own encoding. */
  ghost predicate KeepsAscii(utf8: string -> Bytes) {
    forall s :: (forall i :: 0 <= i < |s| ==> s[i] as int < 128) ==> utf8(s) == AsciiBytes(s)
  }

  function AsciiBytes(s: string): Bytes {
    seq(|s|, i requires 0 <= i < |s| => s[i] as int % 256)
  }

  /** Two seeds that give the intent "x" the same name. */
  lemma NamesCollide(utf8: string -> Bytes)
    requires KeepsAscii(utf8)
    ensures Generated(utf8, "x", "wHgD7") == Generated(utf8, "x", "5gECG")
  {
    hide Generated, Fnv.Digest, Seeded, AsciiBytes, Radix.Power;
    SeedBytes();
    assert utf8(Seeded("x", "wHgD7")) == AsciiBytes(Seeded("x", "wHgD7"));
    assert utf8(Seeded("x", "5gECG")) == AsciiBytes(Seeded("x", "5gECG"));
    FirstDigest();
    SecondDigest();
    DigestsCollide();
    NamesDifferIff(utf8, "x", "wHgD7", "5gECG");
  }

  lemma SeedBytes()
    ensures AsciiBytes(Seeded("x", "wHgD7")) == [120, 0, 119, 72, 103, 68, 55]
    ensures AsciiBytes(Seeded("x", "5gECG")) == [120, 0, 53, 103, 69, 67, 71]
    ensures forall i :: 0 <= i < |Seeded("x", "wHgD7")| ==> Seeded("x", "wHgD7")[i] as int < 128
    ensures forall i :: 0 <= i < |Seeded("x", "5gECG")| ==> Seeded("x", "5gECG")[i] as int < 128
  {
    assert Seeded("x", "wHgD7") == ['x', '\0', 'w', 'H', 'g', 'D', '7'];
    assert Seeded("x", "5gECG") == ['x', '\0', '5', 'g', 'E', 'C', 'G'];
  }

  lemma DigestsCollide()
    ensures Radix.Power(36, 7) > 0
    ensures 12923828898476607466 % Radix.Power(36, 7) == 17822994380667176938 % Radix.Power(36, 7)
  {
    ThirtySixToTheSeventh();
    hide Radix.Power;
    Radix.ModUnique(12923828898476607466, 78364164096, 164920139, 63145478122);
    Radix.ModUnique(17822994380667176938, 78364164096, 227438071, 63145478122);
  }

  lemma ThirtySixToTheSeventh()
    ensures Radix.Power(36, 7) == 78364164096
  {
    assert Radix.Power(36, 4) == 1679616;
  }

  lemma CommonDigest()
    ensures Fnv.Digest([120, 0]) == 644252274336276709
  {
    hide Fnv.Digest;
    Fnv.DigestOfNothing();
    NextDigest([], 120, 57406175934947875, 37, 93, 875948729822, 12638214688346347271);
    assert [] + [120] == [120];
    NextDigest([120], 0, 49368026126352919, 7, 7, 753296297392, 644252274336276709);
    assert [120] + [0] == [120, 0];
  }

  lemma FirstStart()
    ensures Fnv.Digest([120, 0, 119, 72]) == 5395679944684611514
  {
    hide Fnv.Digest;
    CommonDigest();
    NextDigest([120, 0], 119, 2516610446626080, 229, 146, 38400427972, 13717866717937293334);
    assert [120, 0] + [119] == [120, 0, 119];
    NextDigest([120, 0, 119], 72, 53585416866942552, 22, 94, 817648573122, 5395679944684611514);
    assert [120, 0, 119] + [72] == [120, 0, 119, 72];
  }

  lemma FirstMiddle()
    ensures Fnv.Digest([120, 0, 119, 72, 103, 68]) == 12296770282092871513
  {
    hide Fnv.Digest;
    FirstStart();
    NextDigest([120, 0, 119, 72], 103, 21076874783924263, 186, 221, 321607586551, 15924714138922892423);
    assert [120, 0, 119, 72] + [103] == [120, 0, 119, 72, 103];
    NextDigest([120, 0, 119, 72, 103], 68, 62205914605167548, 135, 195, 949186929775, 12296770282092871513);
    assert [120, 0, 119, 72, 103] + [68] == [120, 0, 119, 72, 103, 68];
  }

  lemma FirstDigest()
    ensures Fnv.Digest([120, 0, 119, 72, 103, 68, 55]) == 12923828898476607466
  {
    hide Fnv.Digest;
    FirstMiddle();
    NextDigest([120, 0, 119, 72, 103, 68], 55, 48034258914425279, 89, 110, 732944624838, 12923828898476607466);
    assert [120, 0, 119, 72, 103, 68] + [55] == [120, 0, 119, 72, 103, 68, 55];
  }

  lemma SecondStart()
    ensures Fnv.Digest([120, 0, 53, 103]) == 5454810580526438933
  {
    hide Fnv.Digest;
    CommonDigest();
    NextDigest([120, 0], 53, 2516610446626080, 229, 208, 38400427972, 13717934887658242416);
    assert [120, 0] + [53] == [120, 0, 53];
    NextDigest([120, 0, 53], 103, 53585683154915009, 112, 23, 817652636354, 5454810580526438933);
    assert [120, 0, 53] + [103] == [120, 0, 53, 103];
  }

  lemma SecondMiddle()
    ensures Fnv.Digest([120, 0, 53, 103, 69, 67]) == 17804784784260120361
  {
    hide Fnv.Digest;
    SecondStart();
    NextDigest([120, 0, 53, 103], 69, 21307853830181402, 21, 80, 325132047097, 17575490115613144560);
    assert [120, 0, 53, 103] + [69] == [120, 0, 53, 103, 69];
    NextDigest([120, 0, 53, 103, 69], 67, 68654258264113845, 240, 179, 1047580845508, 17804784784260120361);
    assert [120, 0, 53, 103, 69] + [67] == [120, 0, 53, 103, 69, 67];
  }

  lemma SecondDigest()
    ensures Fnv.Digest([120, 0, 53, 103, 69, 67, 71]) == 17822994380667176938
  {
    hide Fnv.Digest;
    SecondMiddle();
    NextDigest([120, 0, 53, 103, 69, 67], 71, 69549940563516095, 41, 110, 1061247872787, 17822994380667176938);
    assert [120, 0, 53, 103, 69, 67] + [71] == [120, 0, 53, 103, 69, 67, 71];
  }
}
