/** Phone-number normalisation and validation: `normalizePhone` and
    `validatePhoneNumber` of library.js. Strings are sequences of Unicode
    scalar values. */
module PhoneFormat {

  /** A value as it arrives from a request body or a hook argument:
      missing (`undefined` or `null`), a string, or any other JavaScript
      value, of which only its truthiness matters to the plugin. */
  datatype Input = Absent | Text(s: string) | NonText(truthy: bool)

  /** JavaScript truthiness of an input. */
  predicate Truthy(x: Input) {
    match x
    case Absent => false
    case Text(s) => s != ""
    case NonText(t) => t
  }

  /** The regular-expression class `\s`: the ECMAScript WhiteSpace and
      LineTerminator characters. */
  predicate IsSpace(c: char) {
    || c == '\t' || c == '\n' || c == '\U{000B}' || c == '\U{000C}' || c == '\r'
    || c == ' ' || c == '\U{00A0}' || c == '\U{1680}'
    || ('\U{2000}' <= c <= '\U{200A}')
    || c == '\U{2028}' || c == '\U{2029}' || c == '\U{202F}' || c == '\U{205F}'
    || c == '\U{3000}' || c == '\U{FEFF}'
  }

  /** The class `[-\s]` that normalisation deletes. */
  predicate IsSep(c: char) {
    c == '-' || IsSpace(c)
  }

  /** `\d` of a regular expression without the `u` flag. */
  predicate IsDigit(c: char) {
    '0' <= c <= '9'
  }

  predicate NoSeps(s: string) {
    forall i :: 0 <= i < |s| ==> !IsSep(s[i])
  }

  /** `s.replace(/[-\s]/g, '')`. */
  function Strip(s: string): (r: string)
    ensures NoSeps(r)
    ensures |r| <= |s|
  {
    if s == [] then []
    else if IsSep(s[0]) then Strip(s[1..])
    else [s[0]] + Strip(s[1..])
  }

  /** `normalizePhone`: a falsy or non-string input gives the empty string;
      a string loses every separator and is otherwise left alone (its shape
      is not checked). */
  function Normalize(x: Input): (r: string)
    ensures NoSeps(r)
    ensures !x.Text? ==> r == ""
    ensures x.Text? ==> r == Strip(x.s)
  {
    match x
    case Text(s) => if s == "" then "" else Strip(s)
    case _ => ""
  }

  /** The shape `^05\d{8}$`. */
  predicate IsMobile(t: string) {
    && |t| == 10
    && t[0] == '0' && t[1] == '5'
    && forall i :: 2 <= i < 10 ==> IsDigit(t[i])
  }

  /** `s.trim() === ''`: only `\s` characters. */
  predicate Blank(s: string) {
    forall i :: 0 <= i < |s| ==> IsSpace(s[i])
  }

  /** `validatePhoneNumber`: a non-empty string whose separator-free form
      is `05` followed by exactly eight digits. */
  function Validate(x: Input): (ok: bool)
    ensures ok <==> x.Text? && IsMobile(Normalize(x))
    ensures ok ==> Truthy(x)
    ensures ok ==> |Normalize(x)| == 10 && forall i :: 0 <= i < 10 ==> IsDigit(Normalize(x)[i])
  {
    x.Text? && x.s != "" && IsMobile(Strip(x.s))
  }

  /** Deleting separators distributes over concatenation. */
  lemma {:induction false} StripAppend(a: string, b: string)
    ensures Strip(a + b) == Strip(a) + Strip(b)
  {
    if a == [] {
      assert a + b == b;
    } else {
      assert (a + b)[0] == a[0];
      assert (a + b)[1..] == a[1..] + b;
      StripAppend(a[1..], b);
    }
  }

  /** A string is left unchanged by `Strip` exactly when it has no separator. */
  lemma {:induction false} StripFixesExactlyClean(s: string)
    ensures Strip(s) == s <==> NoSeps(s)
  {
    if s != [] && NoSeps(s) {
      assert NoSeps(s[1..]) by {
        forall i | 0 <= i < |s[1..]| ensures !IsSep(s[1..][i]) {
          assert s[1..][i] == s[i + 1];
        }
      }
      StripFixesExactlyClean(s[1..]);
      assert !IsSep(s[0]);
      assert s == [s[0]] + s[1..];
    }
  }

  /** Normalising twice is the same as normalising once. */
  lemma NormalizeIdempotent(x: Input)
    ensures Normalize(Text(Normalize(x))) == Normalize(x)
  {
    StripFixesExactlyClean(Normalize(x));
  }

  /** A separator inserted anywhere changes neither the normal form nor the
      validity of a phone string: `050-1234567` and `0501234567` are the same
      number for every purpose. */
  lemma SeparatorInsensitive(a: string, c: char, b: string)
    requires IsSep(c)
    ensures Normalize(Text(a + [c] + b)) == Normalize(Text(a + b))
    ensures Validate(Text(a + [c] + b)) == Validate(Text(a + b))
  {
    var s1, s2 := a + [c] + b, a + b;
    assert Strip([c]) == [] by {
      assert [c][1..] == [];
    }
    calc {
      Strip(s1);
      { StripAppend(a + [c], b); }
      Strip(a + [c]) + Strip(b);
      { StripAppend(a, [c]); }
      Strip(a) + Strip(b);
      { StripAppend(a, b); }
      Strip(s2);
    }
  }

  /** Validation is unaffected by normalising first, which is what the
      registration hook does. */
  lemma ValidateAfterNormalize(x: Input)
    ensures Validate(Text(Normalize(x))) <==> Validate(x)
  {
    StripFixesExactlyClean(Normalize(x));
  }

  /** A valid phone normalises to ten ASCII digits starting `05`, and that
      normal form is itself valid. */
  lemma ValidNormalForm(x: Input)
    requires Validate(x)
    ensures IsMobile(Normalize(x)) && NoSeps(Normalize(x))
    ensures Normalize(x)[..2] == "05"
    ensures Validate(Text(Normalize(x)))
  {
    ValidateAfterNormalize(x);
  }

  /** A blank string has an empty separator-free form. */
  lemma {:induction false} StripBlank(s: string)
    requires Blank(s)
    ensures Strip(s) == ""
  {
    if s != [] {
      assert Blank(s[1..]) by {
        forall i | 0 <= i < |s[1..]| ensures IsSpace(s[1..][i]) {
          assert s[1..][i] == s[i + 1];
        }
      }
      StripBlank(s[1..]);
    }
  }

  /** A valid phone is a string that is not blank, so the phone-removal
      branch of a profile update never sees it. */
  lemma ValidIsNotBlank(x: Input)
    requires Validate(x)
    ensures x.Text? && !Blank(x.s)
  {
    if Blank(x.s) {
      StripBlank(x.s);
    }
  }
}
