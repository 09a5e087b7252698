/** The text `sendVoiceCall` hands to the voice server: the configured
    template (or the default one) with every `{code}` replaced by the
    spoken form of the code and then every `{siteTitle}` by the forum's
    title. Both replacements follow JavaScript's `replace`, including the
    `$` patterns of the replacement text. The HTTP request itself is
    outside the model. */
module VoiceTemplate {
  import opened PhoneFormat
  import opened Codes

  const CODE_HOLE: string := "{code}"
  const TITLE_HOLE: string := "{siteTitle}"

  /** The title used when the forum has none ("the site"). */
  const DEFAULT_TITLE: string := "\U{05D4}\U{05D0}\U{05EA}\U{05E8}"

  /** The literal pieces of the default template, which reads
      HEAD {siteTitle} MID {code} TAIL {code}: "your code for the site
      {siteTitle} is {code}, I repeat, the code is {code}". */
  const TEMPLATE_HEAD: string :=
    "\U{05D4}\U{05E7}\U{05D5}\U{05D3} \U{05E9}\U{05DC}\U{05DA} \U{05DC}\U{05D0}\U{05EA}\U{05E8} "
  const TEMPLATE_MID: string := " \U{05D4}\U{05D5}\U{05D0} "
  const TEMPLATE_TAIL: string :=
    " \U{05D0}\U{05E0}\U{05D9} \U{05D7}\U{05D5}\U{05D6}\U{05E8}. \U{05D4}\U{05E7}\U{05D5}\U{05D3} \U{05D4}\U{05D5}\U{05D0} "

  const DEFAULT_TEMPLATE: string :=
    TEMPLATE_HEAD + TITLE_HOLE + TEMPLATE_MID + CODE_HOLE + TEMPLATE_TAIL + CODE_HOLE

  predicate Lacks(s: string, c: char) {
    forall i :: 0 <= i < |s| ==> s[i] != c
  }

  lemma LacksAppend(a: string, b: string, c: char)
    requires Lacks(a, c) && Lacks(b, c)
    ensures Lacks(a + b, c)
  {
    forall i | 0 <= i < |a + b| ensures (a + b)[i] != c {
      if i >= |a| {
        assert (a + b)[i] == b[i - |a|];
      }
    }
  }

  /** The replacement text JavaScript inserts for one match of a pattern
      without capture groups (GetSubstitution, section 22.1.3.19.1 of
      ECMA-262): `$$` gives `$`, `$&` the matched text, `` $` `` the text
      before the match and `$'` the text after it; any other character,
      `$` included, stands for itself. */
  function Substitute(rep: string, matched: string, before: string, after: string): (r: string)
    ensures Lacks(rep, '$') ==> r == rep
    decreases |rep|
  {
    if |rep| == 0 then ""
    else if rep[0] == '$' && |rep| >= 2 && rep[1] == '$' then "$" + Substitute(rep[2..], matched, before, after)
    else if rep[0] == '$' && |rep| >= 2 && rep[1] == '&' then matched + Substitute(rep[2..], matched, before, after)
    else if rep[0] == '$' && |rep| >= 2 && rep[1] == '`' then before + Substitute(rep[2..], matched, before, after)
    else if rep[0] == '$' && |rep| >= 2 && rep[1] == '\'' then after + Substitute(rep[2..], matched, before, after)
    else [rep[0]] + Substitute(rep[1..], matched, before, after)
  }

  /** Whether `pat` occurs in `s` starting at position `k`. */
  predicate MatchAt(s: string, k: int, pat: string) {
    0 <= k <= |s| - |pat| && s[k..k + |pat|] == pat
  }

  /** Whether `pat` occurs in `s` at all. */
  predicate Occurs(s: string, pat: string) {
    exists k :: 0 <= k <= |s| && MatchAt(s, k, pat)
  }

  /** Each occurrence of `pat` replaced by `rep` copied as it is, scanning
      left to right without overlap: what `replace` does for a replacement
      without `$`. */
  function ReplaceLiteral(s: string, pat: string, rep: string): string
    requires |pat| > 0
    decreases |s|
  {
    if |s| == 0 then ""
    else if |pat| <= |s| && s[..|pat|] == pat then rep + ReplaceLiteral(s[|pat|..], pat, rep)
    else [s[0]] + ReplaceLiteral(s[1..], pat, rep)
  }

  /** The scan of `s.replace(/pat/g, rep)` from position `i` of `s`. */
  function Scan(s: string, i: nat, pat: string, rep: string): string
    requires i <= |s| && |pat| > 0
    decreases |s| - i
  {
    if i == |s| then ""
    else if MatchAt(s, i, pat) then
      Substitute(rep, pat, s[..i], s[i + |pat|..]) + Scan(s, i + |pat|, pat, rep)
    else [s[i]] + Scan(s, i + 1, pat, rep)
  }

  /** Without an occurrence from `i` on, the scan copies the text. */
  lemma {:induction false} ScanCopies(s: string, i: nat, pat: string, rep: string)
    requires i <= |s| && |pat| > 0
    requires forall k :: i <= k ==> !MatchAt(s, k, pat)
    ensures Scan(s, i, pat, rep) == s[i..]
    decreases |s| - i
  {
    if i < |s| {
      ScanCopies(s, i + 1, pat, rep);
      assert s[i..] == [s[i]] + s[i + 1..];
    }
  }

  /** For a replacement without `$` the scan is the literal replacement. */
  lemma {:induction false} ScanLiteral(s: string, i: nat, pat: string, rep: string)
    requires i <= |s| && |pat| > 0 && Lacks(rep, '$')
    ensures Scan(s, i, pat, rep) == ReplaceLiteral(s[i..], pat, rep)
    decreases |s| - i
  {
    if i < |s| {
      if MatchAt(s, i, pat) {
        ScanLiteral(s, i + |pat|, pat, rep);
        LiteralAtMatch(s, i, pat, rep);
      } else {
        ScanLiteral(s, i + 1, pat, rep);
        LiteralPastMiss(s, i, pat, rep);
      }
    }
  }

  /** At an occurrence the literal replacement emits `rep` and skips it. */
  lemma LiteralAtMatch(s: string, i: nat, pat: string, rep: string)
    requires |pat| > 0 && MatchAt(s, i, pat)
    ensures ReplaceLiteral(s[i..], pat, rep) == rep + ReplaceLiteral(s[i + |pat|..], pat, rep)
  {
    var t := s[i..];
    assert t[..|pat|] == pat && t[|pat|..] == s[i + |pat|..];
  }

  /** Away from an occurrence the literal replacement copies one character. */
  lemma LiteralPastMiss(s: string, i: nat, pat: string, rep: string)
    requires i < |s| && |pat| > 0 && !MatchAt(s, i, pat)
    ensures ReplaceLiteral(s[i..], pat, rep) == [s[i]] + ReplaceLiteral(s[i + 1..], pat, rep)
  {
    var t := s[i..];
    assert t[0] == s[i] && t[1..] == s[i + 1..];
    assert |pat| <= |t| ==> t[..|pat|] == s[i..i + |pat|];
  }

  /** `s.replace(/pat/g, rep)` for a pattern that is plain text: occurrences
      are found left to right without overlap and each is replaced by the
      expansion of `rep`. */
  function ReplaceAll(s: string, pat: string, rep: string): (r: string)
    requires |pat| > 0
    ensures !Occurs(s, pat) ==> r == s
    ensures Lacks(rep, '$') ==> r == ReplaceLiteral(s, pat, rep)
  {
    ScanFromStart(s, pat, rep);
    Scan(s, 0, pat, rep)
  }

  lemma ScanFromStart(s: string, pat: string, rep: string)
    requires |pat| > 0
    ensures !Occurs(s, pat) ==> Scan(s, 0, pat, rep) == s
    ensures Lacks(rep, '$') ==> Scan(s, 0, pat, rep) == ReplaceLiteral(s, pat, rep)
  {
    assert s[0..] == s;
    if !Occurs(s, pat) {
      ScanCopies(s, 0, pat, rep);
    }
    if Lacks(rep, '$') {
      ScanLiteral(s, 0, pat, rep);
    }
  }

  /** A prefix without the pattern's first character is copied unchanged. */
  lemma {:induction false} SkipPrefix(a: string, s: string, pat: string, rep: string)
    requires |pat| > 0 && Lacks(a, pat[0])
    ensures ReplaceLiteral(a + s, pat, rep) == a + ReplaceLiteral(s, pat, rep)
    decreases |a|
  {
    if |a| == 0 {
      assert a + s == s;
    } else {
      var x := a + s;
      var a' := a[1..];
      if |pat| <= |x| {
        assert x[..|pat|][0] == a[0] != pat[0];
      }
      assert Lacks(a', pat[0]) by {
        forall i | 0 <= i < |a'| ensures a'[i] != pat[0] {
          assert a'[i] == a[i + 1];
        }
      }
      calc {
        ReplaceLiteral(x, pat, rep);
      ==
        [x[0]] + ReplaceLiteral(x[1..], pat, rep);
      == { assert x[0] == a[0] && x[1..] == a[1..] + s; }
        [a[0]] + ReplaceLiteral(a[1..] + s, pat, rep);
      == { SkipPrefix(a[1..], s, pat, rep); }
        [a[0]] + (a[1..] + ReplaceLiteral(s, pat, rep));
      == { assert [a[0]] + a[1..] == a; }
        a + ReplaceLiteral(s, pat, rep);
      }
    }
  }

  /** One hole after a clean prefix is filled, and the rest is processed. */
  lemma FillHole(a: string, pat: string, rep: string, b: string)
    requires |pat| > 0 && Lacks(a, pat[0])
    ensures ReplaceLiteral(a + pat + b, pat, rep) == a + rep + ReplaceLiteral(b, pat, rep)
  {
    SkipPrefix(a, pat + b, pat, rep);
    assert a + pat + b == a + (pat + b);
    assert (pat + b)[..|pat|] == pat && (pat + b)[|pat|..] == b;
  }

  /** A text without the pattern's first character holds no occurrence. */
  lemma LacksNoOccurrence(s: string, pat: string)
    requires |pat| > 0 && Lacks(s, pat[0])
    ensures !Occurs(s, pat)
  {
    forall k | 0 <= k <= |s| - |pat| ensures !MatchAt(s, k, pat) {
      assert s[k..k + |pat|][0] == s[k];
    }
  }

  /** The scan copies a stretch without the pattern's first character. */
  lemma {:induction false} ScanSkip(s: string, i: nat, j: nat, pat: string, rep: string)
    requires i <= j <= |s| && |pat| > 0
    requires forall k :: i <= k < j ==> s[k] != pat[0]
    ensures Scan(s, i, pat, rep) == s[i..j] + Scan(s, j, pat, rep)
    decreases j - i
  {
    if i < j {
      assert !MatchAt(s, i, pat) by {
        if i + |pat| <= |s| {
          assert s[i..i + |pat|][0] == s[i];
        }
      }
      calc {
        Scan(s, i, pat, rep);
      ==
        [s[i]] + Scan(s, i + 1, pat, rep);
      == { ScanSkip(s, i + 1, j, pat, rep); }
        [s[i]] + (s[i + 1..j] + Scan(s, j, pat, rep));
      == { assert s[i..j] == [s[i]] + s[i + 1..j]; }
        s[i..j] + Scan(s, j, pat, rep);
      }
    }
  }

  /** A text with exactly one occurrence, and the pattern's first character
      nowhere else, gets that occurrence replaced by the expansion of `rep`
      in its context, whatever `rep` holds. */
  lemma FillOnlyHole(h: string, pat: string, rest: string, rep: string)
    requires |pat| > 0 && Lacks(h, pat[0]) && Lacks(rest, pat[0])
    ensures ReplaceAll(h + pat + rest, pat, rep) == h + Substitute(rep, pat, h, rest) + rest
  {
    var s := h + pat + rest;
    var e := |h| + |pat|;
    var mid := Substitute(rep, pat, h, rest);
    assert Scan(s, 0, pat, rep) == h + Scan(s, |h|, pat, rep) by {
      AroundHole(h, pat, rest, pat[0]);
      ScanSkip(s, 0, |h|, pat, rep);
    }
    assert Scan(s, |h|, pat, rep) == mid + Scan(s, e, pat, rep) by {
      AroundHole(h, pat, rest, pat[0]);
      ScanAtMatch(s, |h|, pat, rep);
    }
    assert Scan(s, e, pat, rep) == rest by {
      AroundHole(h, pat, rest, pat[0]);
      ScanSkip(s, e, |s|, pat, rep);
      assert Scan(s, |s|, pat, rep) == "";
    }
    assert h + (mid + rest) == h + mid + rest;
  }

  /** At an occurrence the scan emits the expansion of `rep` and skips it. */
  lemma ScanAtMatch(s: string, i: nat, pat: string, rep: string)
    requires i < |s| && |pat| > 0 && MatchAt(s, i, pat)
    ensures Scan(s, i, pat, rep) == Substitute(rep, pat, s[..i], s[i + |pat|..]) + Scan(s, i + |pat|, pat, rep)
  {
  }

  /** The pieces of `h + pat + rest`, and where a character missing from
      `h` and `rest` cannot sit. */
  lemma AroundHole(h: string, pat: string, rest: string, c: char)
    requires Lacks(h, c) && Lacks(rest, c)
    ensures var s := h + pat + rest;
      && s[..|h|] == h && s[|h|..|h| + |pat|] == pat && s[|h| + |pat|..] == rest
      && (forall k :: 0 <= k < |h| ==> s[k] != c)
      && (forall k :: |h| + |pat| <= k < |s| ==> s[k] != c)
  {
    var s := h + pat + rest;
    forall k | |h| + |pat| <= k < |s| ensures s[k] != c {
      assert s[k] == rest[k - |h| - |pat|];
    }
  }

  /** The spoken form of a numeric code holds only digits and spaces. */
  lemma SpokenCodeLacks(code: string, c: char)
    requires AllDigits(code) && !IsDigit(c) && c != ' '
    ensures Lacks(FormatForSpeech(code), c)
  {
    var r := FormatForSpeech(code);
    forall i | 0 <= i < |r| ensures r[i] != c {
      if i % 2 == 0 {
        assert r[2 * (i / 2)] == code[i / 2];
      }
    }
  }

  /** `meta.config.title || 'the site'`. */
  function SiteTitle(configTitle: string): (t: string)
    ensures t != ""
    ensures configTitle != "" ==> t == configTitle
  {
    if configTitle == "" then DEFAULT_TITLE else configTitle
  }

  /** The message of `sendVoiceCall` for the configured template (`""` when
      unset), the code and the forum's configured title. */
  function VoiceMessage(template: string, code: string, configTitle: string): (msg: string)
    ensures template != "" && !Occurs(template, CODE_HOLE) && !Occurs(template, TITLE_HOLE) ==> msg == template
  {
    var t := if template == "" then DEFAULT_TEMPLATE else template;
    ReplaceAll(ReplaceAll(t, CODE_HOLE, FormatForSpeech(code)), TITLE_HOLE, SiteTitle(configTitle))
  }

  /** A brace that does not open `{code}` is copied as it is. */
  lemma BraceNotCode(s: string, rep: string)
    requires |s| > 0 && s[0] == 's'
    ensures ReplaceLiteral(['{'] + s, CODE_HOLE, rep) == ['{'] + ReplaceLiteral(s, CODE_HOLE, rep)
  {
    assert (['{'] + s)[1] == 's' != CODE_HOLE[1];
    assert (['{'] + s)[1..] == s;
  }

  /** Two code holes, each after brace-free text, are both filled. */
  lemma TwoCodeHoles(p: string, t: string, spoken: string)
    requires Lacks(p, '{') && Lacks(t, '{')
    ensures ReplaceLiteral(p + CODE_HOLE + t + CODE_HOLE, CODE_HOLE, spoken) == p + spoken + t + spoken
  {
    calc {
      ReplaceLiteral(p + CODE_HOLE + t + CODE_HOLE, CODE_HOLE, spoken);
    == { assert p + CODE_HOLE + t + CODE_HOLE == p + CODE_HOLE + (t + CODE_HOLE); }
      ReplaceLiteral(p + CODE_HOLE + (t + CODE_HOLE), CODE_HOLE, spoken);
    == { FillHole(p, CODE_HOLE, spoken, t + CODE_HOLE); }
      p + spoken + ReplaceLiteral(t + CODE_HOLE, CODE_HOLE, spoken);
    == { FillHole(t, CODE_HOLE, spoken, ""); assert t + CODE_HOLE + "" == t + CODE_HOLE; }
      p + spoken + (t + spoken + "");
    == { assert p + spoken + (t + spoken + "") == p + spoken + t + spoken; }
      p + spoken + t + spoken;
    }
  }

  lemma TitleHoleShape()
    ensures |TITLE_HOLE| > 1 && TITLE_HOLE == ['{'] + TITLE_HOLE[1..]
    ensures TITLE_HOLE[1] == 's' && Lacks(TITLE_HOLE[1..], '{')
  {
  }

  /** The `{code}` pass over a template shaped like the default one
      leaves the `{siteTitle}` hole alone and fills both code holes. */
  lemma CodePass(h: string, m: string, t: string, spoken: string)
    requires Lacks(h, '{') && Lacks(m, '{') && Lacks(t, '{')
    ensures ReplaceLiteral(h + TITLE_HOLE + m + CODE_HOLE + t + CODE_HOLE, CODE_HOLE, spoken) ==
              h + TITLE_HOLE + m + spoken + t + spoken
  {
    TitleHoleShape();
    var p := TITLE_HOLE[1..] + m;
    LacksAppend(TITLE_HOLE[1..], m, '{');
    var y := p + CODE_HOLE + t + CODE_HOLE;
    calc {
      ReplaceLiteral(h + TITLE_HOLE + m + CODE_HOLE + t + CODE_HOLE, CODE_HOLE, spoken);
    == { assert h + TITLE_HOLE + m + CODE_HOLE + t + CODE_HOLE == h + (['{'] + y); }
      ReplaceLiteral(h + (['{'] + y), CODE_HOLE, spoken);
    == { SkipPrefix(h, ['{'] + y, CODE_HOLE, spoken); }
      h + ReplaceLiteral(['{'] + y, CODE_HOLE, spoken);
    == { assert y[0] == 's'; BraceNotCode(y, spoken); }
      h + (['{'] + ReplaceLiteral(y, CODE_HOLE, spoken));
    == { TwoCodeHoles(p, t, spoken); }
      h + (['{'] + (p + spoken + t + spoken));
    == { assert h + (['{'] + (p + spoken + t + spoken)) == h + TITLE_HOLE + m + spoken + t + spoken; }
      h + TITLE_HOLE + m + spoken + t + spoken;
    }
  }

  lemma DefaultPiecesLackBrace()
    ensures Lacks(TEMPLATE_HEAD, '{') && Lacks(TEMPLATE_MID, '{') && Lacks(TEMPLATE_TAIL, '{')
  {
  }

  /** The default template speaks the title once and the code twice. The
      title goes through `replace`'s `$` expansion, with the template's
      head before it and the rest of the message after it. */
  lemma DefaultMessage(code: string, configTitle: string)
    requires AllDigits(code)
    ensures var spoken := FormatForSpeech(code);
            var rest := TEMPLATE_MID + spoken + TEMPLATE_TAIL + spoken;
      VoiceMessage("", code, configTitle) ==
        TEMPLATE_HEAD + Substitute(SiteTitle(configTitle), TITLE_HOLE, TEMPLATE_HEAD, rest) + rest
  {
    var spoken := FormatForSpeech(code);
    var rest := TEMPLATE_MID + spoken + TEMPLATE_TAIL + spoken;
    var title := SiteTitle(configTitle);
    calc {
      VoiceMessage("", code, configTitle);
    ==
      ReplaceAll(ReplaceAll(DEFAULT_TEMPLATE, CODE_HOLE, spoken), TITLE_HOLE, title);
    == { DefaultCodePass(code); }
      ReplaceAll(TEMPLATE_HEAD + TITLE_HOLE + rest, TITLE_HOLE, title);
    == { DefaultRestLacksBrace(code); DefaultPiecesLackBrace();
         FillOnlyHole(TEMPLATE_HEAD, TITLE_HOLE, rest, title); }
      TEMPLATE_HEAD + Substitute(title, TITLE_HOLE, TEMPLATE_HEAD, rest) + rest;
    }
  }

  /** The `{code}` pass over the default template. */
  lemma DefaultCodePass(code: string)
    requires AllDigits(code)
    ensures var spoken := FormatForSpeech(code);
      ReplaceAll(DEFAULT_TEMPLATE, CODE_HOLE, spoken) ==
        TEMPLATE_HEAD + TITLE_HOLE + (TEMPLATE_MID + spoken + TEMPLATE_TAIL + spoken)
  {
    var spoken := FormatForSpeech(code);
    calc {
      ReplaceAll(DEFAULT_TEMPLATE, CODE_HOLE, spoken);
    == { SpokenCodeLacks(code, '$'); }
      ReplaceLiteral(DEFAULT_TEMPLATE, CODE_HOLE, spoken);
    == { DefaultPiecesLackBrace(); CodePass(TEMPLATE_HEAD, TEMPLATE_MID, TEMPLATE_TAIL, spoken); }
      TEMPLATE_HEAD + TITLE_HOLE + TEMPLATE_MID + spoken + TEMPLATE_TAIL + spoken;
    == { assert TEMPLATE_HEAD + TITLE_HOLE + TEMPLATE_MID + spoken + TEMPLATE_TAIL + spoken ==
                TEMPLATE_HEAD + TITLE_HOLE + (TEMPLATE_MID + spoken + TEMPLATE_TAIL + spoken); }
      TEMPLATE_HEAD + TITLE_HOLE + (TEMPLATE_MID + spoken + TEMPLATE_TAIL + spoken);
    }
  }

  lemma DefaultRestLacksBrace(code: string)
    requires AllDigits(code)
    ensures var spoken := FormatForSpeech(code);
      Lacks(TEMPLATE_MID + spoken + TEMPLATE_TAIL + spoken, '{')
  {
    var spoken := FormatForSpeech(code);
    DefaultPiecesLackBrace();
    SpokenCodeLacks(code, '{');
    LacksAppend(TEMPLATE_MID, spoken, '{');
    LacksAppend(TEMPLATE_MID + spoken, TEMPLATE_TAIL, '{');
    LacksAppend(TEMPLATE_MID + spoken + TEMPLATE_TAIL, spoken, '{');
  }

  /** With a title free of `$`, and with the default title, the default
      template reads head, title, middle, code, tail, code. */
  lemma DefaultMessagePlainTitle(code: string, configTitle: string)
    requires AllDigits(code) && Lacks(configTitle, '$')
    ensures var spoken := FormatForSpeech(code);
      VoiceMessage("", code, configTitle) ==
        TEMPLATE_HEAD + SiteTitle(configTitle) + TEMPLATE_MID + spoken + TEMPLATE_TAIL + spoken
  {
    var spoken := FormatForSpeech(code);
    var rest := TEMPLATE_MID + spoken + TEMPLATE_TAIL + spoken;
    var t := SiteTitle(configTitle);
    calc {
      VoiceMessage("", code, configTitle);
    == { DefaultMessage(code, configTitle); }
      TEMPLATE_HEAD + Substitute(t, TITLE_HOLE, TEMPLATE_HEAD, rest) + rest;
    == { PlainSiteTitle(configTitle); }
      TEMPLATE_HEAD + t + rest;
    == { assert TEMPLATE_HEAD + t + rest == TEMPLATE_HEAD + t + TEMPLATE_MID + spoken + TEMPLATE_TAIL + spoken; }
      TEMPLATE_HEAD + t + TEMPLATE_MID + spoken + TEMPLATE_TAIL + spoken;
    }
  }

  lemma PlainSiteTitle(configTitle: string)
    requires Lacks(configTitle, '$')
    ensures Lacks(SiteTitle(configTitle), '$')
  {
    if configTitle == "" {
      DefaultTitleIsPlain();
    }
  }

  lemma DefaultTitleIsPlain()
    ensures Lacks(DEFAULT_TITLE, '$')
  {
  }

  /** `$` patterns in a title are expanded, not spoken: `$$` is read as one
      `$`, `$&` as the hole `{siteTitle}` itself, and `$'` as the rest of
      the message. */
  lemma DollarPatternsInTitle(before: string, after: string)
    ensures Substitute("A$$B", TITLE_HOLE, before, after) == "A$B"
    ensures Substitute("$&", TITLE_HOLE, before, after) == TITLE_HOLE
    ensures Substitute("$'", TITLE_HOLE, before, after) == after
    ensures Substitute("$1", TITLE_HOLE, before, after) == "$1"
  {
  }

  /** A custom template with one `{code}` hole and no other braces speaks
      exactly the text around the hole with the code in it. */
  lemma OneHoleTemplate(a: string, b: string, code: string, configTitle: string)
    requires Lacks(a, '{') && Lacks(b, '{') && AllDigits(code)
    ensures VoiceMessage(a + CODE_HOLE + b, code, configTitle) == a + FormatForSpeech(code) + b
  {
    var spoken := FormatForSpeech(code);
    SpokenCodeLacks(code, '{');
    SpokenCodeLacks(code, '$');
    FillHole(a, CODE_HOLE, spoken, b);
    assert ReplaceLiteral(b, CODE_HOLE, spoken) == b by {
      SkipPrefix(b, "", CODE_HOLE, spoken);
      assert b + "" == b;
    }
    LacksAppend(a, spoken, '{');
    LacksAppend(a + spoken, b, '{');
    LacksNoOccurrence(a + spoken + b, TITLE_HOLE);
  }
}
