/** Turning any name into a valid organisation slug. */
module Slug {

  const MAX_LENGTH := 63

  predicate Alnum(c: char)
  {
    'a' <= c <= 'z' || '0' <= c <= '9'
  }

  /** The server's rules: 2 to 63 characters, letters and digits joined by single hyphens. */
  ghost predicate IsOrgSlug(s: string)
  {
    2 <= |s| <= MAX_LENGTH && Tidy(s)
  }

  ghost predicate Tidy(s: string)
  {
    && SinglyHyphenated(s)
    && (s != "" ==> s[0] != '-' && s[|s| - 1] != '-')
  }

  ghost predicate SinglyHyphenated(s: string)
  {
    && (forall i :: 0 <= i < |s| ==> Alnum(s[i]) || s[i] == '-')
    && (forall i, j :: 0 <= i < |s| && j == i + 1 < |s| ==> s[i] != '-' || s[j] != '-')
  }

  // ---- what a slug is made of ----

  predicate EndsInWord(s: string)
  {
    s != "" && Alnum(s[|s| - 1])
  }

  ghost predicate Word(w: string)
  {
    w != "" && forall i :: 0 <= i < |w| ==> Alnum(w[i])
  }

  lemma WordGrows(w: string, c: char)
    requires Word(w) && Alnum(c)
    ensures Word(w + [c])
  {
  }

  function GrowLast(words: seq<string>, c: char): (more: seq<string>)
    requires words != [] && Alnum(c) && forall w :: w in words ==> Word(w)
    ensures more != [] && forall w :: w in more ==> Word(w)
  {
    var n := |words| - 1;
    WordGrows(words[n], c);
    assert forall w :: w in words[..n] ==> w in words;
    words[..n] + [words[n] + [c]]
  }

  /** The longest stretches of letters and digits, in order. */
  function Words(s: string): (words: seq<string>)
    ensures forall w :: w in words ==> Word(w)
    ensures s != "" && (Alnum(s[0]) || EndsInWord(s)) ==> words != []
  {
    if s == "" then []
    else
      var before, c := Words(s[..|s| - 1]), s[|s| - 1];
      if !Alnum(c) then before
      else if EndsInWord(s[..|s| - 1]) then GrowLast(before, c)
      else before + [[c]]
  }

  function Hyphenated(words: seq<string>): string
  {
    if words == [] then ""
    else if |words| == 1 then words[0]
    else Hyphenated(words[..|words| - 1]) + "-" + words[|words| - 1]
  }

  lemma LastGrows(words: seq<string>, c: char)
    requires words != [] && Alnum(c) && forall w :: w in words ==> Word(w)
    ensures Hyphenated(GrowLast(words, c)) == Hyphenated(words) + [c]
  {
  }

  lemma OneMoreWord(words: seq<string>, w: string)
    ensures Hyphenated(words + [w]) == if words == [] then w else Hyphenated(words) + "-" + w
  {
  }

  lemma WordIsTidy(w: string)
    requires Word(w)
    ensures Tidy(w)
  {
  }

  lemma JoinIsTidy(t: string, w: string)
    requires Tidy(t) && t != "" && Word(w)
    ensures Tidy(t + "-" + w)
  {
  }

  /** Words joined by hyphens keep to the slug's alphabet and spacing. */
  lemma {:induction false} HyphenatedIsTidy(words: seq<string>)
    requires forall w :: w in words ==> Word(w)
    ensures Tidy(Hyphenated(words)) && (Hyphenated(words) == "" <==> words == [])
  {
    if |words| == 1 {
      WordIsTidy(words[0]);
    } else if words != [] {
      HyphenatedIsTidy(words[..|words| - 1]);
      JoinIsTidy(Hyphenated(words[..|words| - 1]), words[|words| - 1]);
    }
  }

  // ---- trimming ----

  function TrimLeft(s: string): string
  {
    if s != "" && s[0] == '-' then TrimLeft(s[1..]) else s
  }

  function TrimRight(s: string): string
  {
    if s != "" && s[|s| - 1] == '-' then TrimRight(s[..|s| - 1]) else s
  }

  function Trim(s: string): string
  {
    TrimRight(TrimLeft(s))
  }

  lemma TrimTidy(t: string, lead: string, trail: string)
    requires Tidy(t) && (lead == "" || lead == "-") && (trail == "" || (trail == "-" && t != ""))
    ensures Trim(lead + t + trail) == t
  {
    var s := lead + t + trail;
    assert TrimLeft(s) == t + trail by {
      if lead == "" {
        assert s == t + trail;
      } else {
        assert s[1..] == t + trail;
      }
    }
    if trail == "" {
      assert t + trail == t;
    } else {
      assert (t + trail)[..|t|] == t && (t + trail)[|t|] == '-';
      assert TrimRight(t + trail) == TrimRight(t);
    }
  }

  // ---- slugifyOrg ----

  function Lower(s: string, lower: char -> char): string
  {
    seq(|s|, i requires 0 <= i < |s| => lower(s[i]))
  }

  /** The slug of s: its words joined, a random one if that is too short, cut
      at 63 characters and not left with a hyphen at the cut. */
  function OrgSlug(s: string, lower: char -> char, token: string): string
  {
    var t := Hyphenated(Words(Lower(s, lower)));
    var u := if |t| < 2 then "org-" + token else t;
    if |u| <= MAX_LENGTH then u
    else if u[MAX_LENGTH - 1] == '-' then u[..MAX_LENGTH - 1]
    else u[..MAX_LENGTH]
  }

  /** Four or six letters and digits: random hex, or the fixed fallback. */
  ghost predicate IsShortToken(token: string)
  {
    (|token| == 4 || |token| == 6) && Word(token)
  }

  function Lead(s: string): string
  {
    if s != "" && !Alnum(s[0]) then "-" else ""
  }

  function Trail(s: string): string
  {
    if s != "" && !EndsInWord(s) && Words(s) != [] then "-" else ""
  }

  /** What the builder holds after reading s. */
  function Collapsed(s: string): string
  {
    Lead(s) + Hyphenated(Words(s)) + Trail(s)
  }

  lemma LetterAfterWord(s: string, c: char)
    requires Alnum(c) && EndsInWord(s)
    ensures Collapsed(s + [c]) == Collapsed(s) + [c]
  {
    var t, lead := Hyphenated(Words(s)), Lead(s);
    assert (s + [c])[..|s|] == s && Words(s + [c]) == GrowLast(Words(s), c);
    LastGrows(Words(s), c);
    assert Lead(s + [c]) == lead && Trail(s) == Trail(s + [c]) == "";
    assert lead + (t + [c]) + "" == lead + t + "" + [c];
  }

  lemma LetterAfterHyphen(s: string, c: char)
    requires Alnum(c) && !EndsInWord(s)
    ensures Collapsed(s + [c]) == Collapsed(s) + [c]
  {
    assert (s + [c])[..|s|] == s;
    OneMoreWord(Words(s), [c]);
    assert Trail(s + [c]) == "";
    var t := Hyphenated(Words(s));
    if Words(s) == [] {
      assert Lead(s) + [c] + "" == Lead(s) + "" + "" + [c];
    } else {
      assert s != "" && Trail(s) == "-";
      assert Lead(s) + (t + "-" + [c]) + "" == Lead(s) + t + "-" + [c];
    }
  }

  lemma OtherCharacter(s: string, c: char)
    requires !Alnum(c)
    ensures Collapsed(s + [c]) == if s == "" || EndsInWord(s) then Collapsed(s) + "-" else Collapsed(s)
  {
  }

  predicate AfterOther(s: string)
  {
    s != "" && !EndsInWord(s)
  }

  /** The builder and its flag after reading s. */
  ghost predicate Builds(b: string, prevDash: bool, s: string)
  {
    b == Collapsed(s) && prevDash == AfterOther(s)
  }

  lemma BuildsNext(b: string, prevDash: bool, s: string, c: char)
    requires Builds(b, prevDash, s)
    ensures Alnum(c) ==> Builds(b + [c], false, s + [c])
    ensures !Alnum(c) ==> Builds(if prevDash then b else b + "-", true, s + [c])
  {
    if !Alnum(c) {
      OtherCharacter(s, c);
    } else if EndsInWord(s) {
      LetterAfterWord(s, c);
    } else {
      LetterAfterHyphen(s, c);
    }
  }

  method Collapse(text: string) returns (b: string)
    ensures b == Collapsed(text)
  {
    var prevDash, i := false, 0;
    b := "";
    while i < |text|
      invariant i <= |text| && Builds(b, prevDash, text[..i])
    {
      var r := text[i];
      BuildsNext(b, prevDash, text[..i], r);
      assert text[..i] + [r] == text[..i + 1];
      i := i + 1;
      if Alnum(r) {
        b := b + [r];
        prevDash := false;
      } else if !prevDash {
        b := b + "-";
        prevDash := true;
      }
    }
    assert text[..i] == text;
  }

  method SlugifyOrg(s: string, lower: char -> char, token: string) returns (slug: string)
    requires IsShortToken(token)
    ensures slug == OrgSlug(s, lower, token)
  {
    var text := Lower(s, lower);
    var b := Collapse(text);
    HyphenatedIsTidy(Words(text));
    TrimTidy(Hyphenated(Words(text)), Lead(text), Trail(text));
    slug := Trim(b);
    if |slug| < 2 {
      slug := "org-" + token;
    }
    if |slug| > MAX_LENGTH {
      CutTidy(slug, MAX_LENGTH);
      slug := Trim(slug[..MAX_LENGTH]);
    }
  }

  lemma CutTidy(s: string, n: nat)
    requires Tidy(s) && 2 <= n < |s|
    ensures var t := if s[n - 1] == '-' then s[..n - 1] else s[..n];
      Tidy(t) && Trim(s[..n]) == t
  {
    var t := if s[n - 1] == '-' then s[..n - 1] else s[..n];
    var trail := if s[n - 1] == '-' then "-" else "";
    assert s[..n] == "" + t + trail;
    TrimTidy(t, "", trail);
  }

  /** Whatever the name, the slug is one the server accepts. */
  lemma EverySlugIsValid(s: string, lower: char -> char, token: string)
    requires IsShortToken(token)
    ensures IsOrgSlug(OrgSlug(s, lower, token))
  {
    var words := Words(Lower(s, lower));
    HyphenatedIsTidy(words);
    var t := Hyphenated(words);
    if |t| > MAX_LENGTH {
      CutTidy(t, MAX_LENGTH);
    } else if |t| < 2 {
      WordIsTidy("org");
      JoinIsTidy("org", token);
      assert "org" + "-" + token == "org-" + token;
    }
  }

  // ---- which letters a slug keeps ----

  /** The places of a text's letters and digits. */
  function Letters(text: string): (at: seq<nat>)
    ensures forall i :: 0 <= i < |at| ==> at[i] < |text| && Alnum(text[at[i]])
  {
    if text == "" then []
    else
      var n := |text| - 1;
      Letters(text[..n]) + if Alnum(text[n]) then [n] else []
  }

  /** They are in order, and none is missing. */
  lemma {:induction false} LettersAreAll(text: string)
    ensures forall i, j :: 0 <= i < j < |Letters(text)| ==> Letters(text)[i] < Letters(text)[j]
    ensures forall k :: 0 <= k < |text| ==> (k in Letters(text) <==> 'a' <= text[k] <= 'z' || '0' <= text[k] <= '9')
  {
    if text != "" {
      var n := |text| - 1;
      LettersAreAll(text[..n]);
      assert forall k :: 0 <= k < n ==> text[..n][k] == text[k];
    }
  }

  ghost predicate PlacesIn(text: string, at: seq<nat>)
  {
    forall i :: 0 <= i < |at| ==> at[i] < |text| && Alnum(text[at[i]])
  }

  /** What stands before the i-th of these places. */
  ghost function Between(at: seq<nat>, i: nat): string
    requires i < |at|
  {
    if i == 0 || at[i] == at[i - 1] + 1 then "" else "-"
  }

  /** The characters at the first n of these places, a hyphen between two that
      are not next to each other in the text. */
  ghost function Spelled(text: string, at: seq<nat>, n: nat): string
    requires PlacesIn(text, at) && n <= |at|
  {
    if n == 0 then "" else Spelled(text, at, n - 1) + Between(at, n - 1) + [text[at[n - 1]]]
  }

  lemma {:induction false} SpelledByPrefix(text: string, at: seq<nat>, longer: string, more: seq<nat>, n: nat)
    requires PlacesIn(text, at) && PlacesIn(longer, more)
    requires text <= longer && at <= more && n <= |at|
    ensures Spelled(text, at, n) == Spelled(longer, more, n)
  {
    if n > 0 {
      SpelledByPrefix(text, at, longer, more, n - 1);
      assert longer[at[n - 1]] == text[at[n - 1]];
    }
  }

  lemma OtherNotSpelled(p: string, c: char)
    requires !Alnum(c)
    ensures Letters(p + [c]) == Letters(p)
    ensures Spelled(p + [c], Letters(p), |Letters(p)|) == Spelled(p, Letters(p), |Letters(p)|)
  {
    assert (p + [c])[..|p|] == p;
    SpelledByPrefix(p, Letters(p), p + [c], Letters(p), |Letters(p)|);
  }

  lemma LetterSpelled(p: string, c: char)
    requires Alnum(c)
    ensures var at := Letters(p);
      && |Letters(p + [c])| == |at| + 1
      && Spelled(p + [c], Letters(p + [c]), |at| + 1) ==
        Spelled(p, at, |at|) + (if at == [] || EndsInWord(p) then "" else "-") + [c]
  {
    var at := Letters(p);
    assert Letters(p + [c]) == at + [|p|] by {
      assert (p + [c])[..|p|] == p;
    }
    SpelledByPrefix(p, at, p + [c], at + [|p|], |at|);
    assert Between(at + [|p|], |at|) == if at == [] || EndsInWord(p) then "" else "-" by {
      if at != [] {
        LastLetter(p);
      }
    }
  }

  lemma LastLetter(p: string)
    requires Letters(p) != []
    ensures EndsInWord(p) <==> |p| == Letters(p)[|Letters(p)| - 1] + 1
  {
  }

  lemma LetterInWords(p: string, c: char)
    requires Alnum(c)
    ensures Hyphenated(Words(p + [c])) ==
      Hyphenated(Words(p)) + (if Words(p) == [] || EndsInWord(p) then "" else "-") + [c]
    ensures Words(p + [c]) != []
  {
    assert (p + [c])[..|p|] == p;
    if EndsInWord(p) {
      LastGrows(Words(p), c);
      assert Hyphenated(Words(p)) + "" == Hyphenated(Words(p));
    } else {
      OneMoreWord(Words(p), [c]);
      assert Words(p) == [] ==> Hyphenated(Words(p)) + "" + [c] == [c];
    }
  }

  /** The words joined by hyphens spell all the letters. */
  lemma {:induction false} WordsSpellLetters(text: string)
    ensures Hyphenated(Words(text)) == Spelled(text, Letters(text), |Letters(text)|)
    ensures Words(text) == [] <==> Letters(text) == []
  {
    if text != "" {
      var p, c := text[..|text| - 1], text[|text| - 1];
      assert text == p + [c];
      WordsSpellLetters(p);
      if Alnum(c) {
        LetterSpelled(p, c);
        LetterInWords(p, c);
      } else {
        OtherNotSpelled(p, c);
      }
    }
  }

  ghost function WithoutHyphens(s: string): string
  {
    if s == "" then ""
    else WithoutHyphens(s[..|s| - 1]) + if s[|s| - 1] == '-' then "" else [s[|s| - 1]]
  }

  lemma WithoutHyphensNext(s: string, between: string, c: char)
    requires (between == "" || between == "-") && Alnum(c)
    ensures WithoutHyphens(s + between + [c]) == WithoutHyphens(s) + [c]
  {
    assert (s + between + [c])[..|s + between|] == s + between;
    if between == "" {
      assert s + between == s;
    } else {
      assert (s + "-")[..|s|] == s;
    }
  }

  lemma {:induction false} LengthOfSpelled(text: string, at: seq<nat>, n: nat)
    requires PlacesIn(text, at) && n <= |at|
    ensures n <= |Spelled(text, at, n)| && (n == 1 ==> |Spelled(text, at, n)| == 1)
    ensures n > 0 ==> EndsInWord(Spelled(text, at, n))
  {
    if n > 0 {
      LengthOfSpelled(text, at, n - 1);
    }
  }

  ghost function Picked(text: string, at: seq<nat>, n: nat): string
    requires PlacesIn(text, at) && n <= |at|
  {
    seq(n, i requires 0 <= i < n => text[at[i]])
  }

  lemma PickedNext(text: string, at: seq<nat>, n: nat)
    requires PlacesIn(text, at) && 0 < n <= |at|
    ensures Picked(text, at, n) == Picked(text, at, n - 1) + [text[at[n - 1]]]
  {
  }

  lemma {:induction false} SpelledKeepsLetters(text: string, at: seq<nat>, n: nat)
    requires PlacesIn(text, at) && n <= |at|
    ensures WithoutHyphens(Spelled(text, at, n)) == Picked(text, at, n)
  {
    if n > 0 {
      SpelledKeepsLetters(text, at, n - 1);
      WithoutHyphensNext(Spelled(text, at, n - 1), Between(at, n - 1), text[at[n - 1]]);
      PickedNext(text, at, n);
    }
  }

  /** A spelled text without what was cut off after its n-th character. */
  ghost function Cut(t: string, n: nat): string
    requires 1 <= n <= |t|
  {
    if t[n - 1] == '-' then t[..n - 1] else t[..n]
  }

  lemma CutBefore(before: string, between: string, c: char, n: nat)
    requires 1 <= n <= |before|
    ensures Cut(before + between + [c], n) == Cut(before, n)
  {
    assert (before + between + [c])[..n] == before[..n];
    assert (before + between + [c])[..n - 1] == before[..n - 1];
  }

  lemma CutAtLastLetter(before: string, between: string, c: char, n: nat)
    requires (between == "" || between == "-") && EndsInWord(before)
    requires |before| <= n < |before + between + [c]|
    ensures Cut(before + between + [c], n) == before
  {
    var t := before + between + [c];
    assert t[..|before|] == before;
  }

  /** Cutting a spelled text leaves as many letters as fit. */
  lemma {:induction false} CutKeepsLetters(text: string, at: seq<nat>, k: nat, n: nat) returns (m: nat)
    requires PlacesIn(text, at) && k <= |at| && 1 <= n < |Spelled(text, at, k)|
    ensures m < k && |Spelled(text, at, m)| <= n < |Spelled(text, at, m + 1)|
    ensures Spelled(text, at, m) == Cut(Spelled(text, at, k), n)
  {
    var before := Spelled(text, at, k - 1);
    if n < |before| {
      m := CutKeepsLetters(text, at, k - 1, n);
      CutBefore(before, Between(at, k - 1), text[at[k - 1]], n);
    } else {
      m := k - 1;
      LengthOfSpelled(text, at, m);
      LengthOfSpelled(text, at, k);
      CutAtLastLetter(before, Between(at, k - 1), text[at[k - 1]], n);
    }
  }

  /** A slug spells a text's first m letters, and no more of them would fit. */
  ghost predicate SpellsUpTo(slug: string, text: string, m: nat)
  {
    var at := Letters(text);
    && m <= |at|
    && slug == Spelled(text, at, m)
    && |slug| <= 63 && (m < |at| ==> |Spelled(text, at, m + 1)| > 63)
  }

  lemma OrgSlugSpells(s: string, lower: char -> char, token: string) returns (m: nat)
    requires IsShortToken(token)
    ensures |Letters(Lower(s, lower))| < 2 ==> OrgSlug(s, lower, token) == "org-" + token
    ensures |Letters(Lower(s, lower))| >= 2 ==> SpellsUpTo(OrgSlug(s, lower, token), Lower(s, lower), m)
  {
    var text := Lower(s, lower);
    var at := Letters(text);
    WordsSpellLetters(text);
    m := |at|;
    LengthOfSpelled(text, at, m);
    if m >= 2 && |Spelled(text, at, m)| > MAX_LENGTH {
      m := CutKeepsLetters(text, at, m, MAX_LENGTH);
    }
  }

  /** The slug spells the letters and digits of the lowered name, all of them or
      as many as fit in 63 characters: in order, with a hyphen exactly where
      something else stood between two. Only with fewer than two it is random. */
  lemma SlugSpellsLetters(s: string, lower: char -> char, token: string) returns (m: nat)
    requires IsShortToken(token)
    ensures var text, slug := Lower(s, lower), OrgSlug(s, lower, token);
      var at := Letters(text);
      if |at| < 2 then slug == "org-" + token
      else
        && SpellsUpTo(slug, text, m)
        && WithoutHyphens(slug) == seq(m, i requires 0 <= i < m => text[at[i]])
  {
    var text := Lower(s, lower);
    m := OrgSlugSpells(s, lower, token);
    if |Letters(text)| >= 2 {
      SpelledKeepsLetters(text, Letters(text), m);
    }
  }

  /** A slug that may have been cut right after a hyphen. */
  ghost predicate SlugStart(s: string)
  {
    SinglyHyphenated(s) && (s != "" ==> s[0] != '-')
  }

  lemma SlugGrowsWord(p: string, c: char)
    requires EndsInWord(p) && Alnum(c) && Hyphenated(Words(p)) == p
    ensures Hyphenated(Words(p + [c])) == p + [c]
  {
    assert (p + [c])[..|p|] == p;
    LastGrows(Words(p), c);
  }

  lemma SlugBeginsWord(q: string, c: char)
    requires q != "" && Alnum(q[0]) && Alnum(c) && Hyphenated(Words(q + "-")) == q
    ensures Hyphenated(Words(q + "-" + [c])) == q + "-" + [c]
  {
  }

  lemma {:induction false} WordsOfSlug(s: string)
    requires SlugStart(s)
    ensures Hyphenated(Words(s)) == if AfterOther(s) then s[..|s| - 1] else s
  {
    if s != "" {
      var p, c := s[..|s| - 1], s[|s| - 1];
      assert s == p + [c];
      WordsOfSlug(p);
      if Alnum(c) && EndsInWord(p) {
        SlugGrowsWord(p, c);
      } else if Alnum(c) && p != "" {
        var q := p[..|p| - 1];
        assert s[|s| - 2] == '-' && p == q + "-" && s[0] == p[0];
        SlugBeginsWord(q, c);
      } else if p != "" {
        assert s[|s| - 2] != '-';
      } else if Alnum(c) {
        assert Words(s) == [[c]];
      }
    }
  }

  /** A valid slug is left as it is, so making a slug twice changes nothing. */
  lemma ValidSlugIsFixed(s: string, lower: char -> char, token: string)
    requires IsOrgSlug(s) && forall c :: Alnum(c) || c == '-' ==> lower(c) == c
    ensures OrgSlug(s, lower, token) == s
  {
    assert Lower(s, lower) == s;
    WordsOfSlug(s);
  }

  lemma SlugifyIsIdempotent(s: string, lower: char -> char, token: string, again: string)
    requires IsShortToken(token) && forall c :: Alnum(c) || c == '-' ==> lower(c) == c
    ensures OrgSlug(OrgSlug(s, lower, token), lower, again) == OrgSlug(s, lower, token)
  {
    EverySlugIsValid(s, lower, token);
    ValidSlugIsFixed(OrgSlug(s, lower, token), lower, again);
  }
}
