/** The client-side checks of static/js/main.js: `validateField`, which the forms run on
    every input as the user types, and the size limit on a chosen upload. */
module Validation {
  import opened Wrappers
  import opened Seqs
  import opened Text

  // ---------------------------------------------------------------------------------------
  // UTF-16 length

  /** The number of UTF-16 code units of a character: two for one outside the Basic
      Multilingual Plane (a surrogate pair), one otherwise. */
  function CodeUnits(c: char): nat {
    if c as int > 0xFFFF then 2 else 1
  }

  /** JavaScript's `String.prototype.length`, which counts UTF-16 code units. */
  function Utf16Length(s: string): (r: nat)
    ensures |s| <= r <= 2 * |s|
    ensures (forall i :: 0 <= i < |s| ==> s[i] as int <= 0xFFFF) ==> r == |s|
  {
    if s == [] then 0 else CodeUnits(s[0]) + Utf16Length(s[1..])
  }

  // ---------------------------------------------------------------------------------------
  // The email pattern `/^[^\s@]+@[^\s@]+\.[^\s@]+$/`

  /** `[^\s@]`: neither white space (`\s` is JavaScript white space and line terminators) nor `@`. */
  predicate IsMailChar(c: char) {
    !IsJsSpace(c) && c != '@'
  }

  /** `[^\s@]+`: a non-empty run of such characters. */
  predicate IsMailRun(s: string) {
    s != [] && forall i :: 0 <= i < |s| ==> IsMailChar(s[i])
  }

  /** The way a value matches the email pattern: a local part, `@`, a run, a dot, and a
      final run. The middle run may itself contain dots. */
  ghost predicate EmailShape(v: string, local: string, d1: string, d2: string) {
    IsMailRun(local) && IsMailRun(d1) && IsMailRun(d2) && v == local + "@" + d1 + "." + d2
  }

  function IsAt(c: char): bool { c == '@' }

  /** The test `emailRegex.test(value)` performs, written as a direct check: no white
      space anywhere, exactly one `@` and not first, and after it at least three
      characters with a dot strictly inside them. */
  predicate IsEmail(v: string) {
    (forall i :: 0 <= i < |v| ==> !IsJsSpace(v[i]))
    && match FirstIndex(v, IsAt)
       case None => false
       case Some(a) =>
         var d := v[a + 1..];
         a > 0 && '@' !in d && |d| >= 3 && '.' in d[1..|d| - 1]
  }

  /** The characters of a run joined as in the pattern are the characters of its pieces. */
  lemma MailRunsJoin(v: string, local: string, d1: string, d2: string)
    requires EmailShape(v, local, d1, d2)
    ensures forall i :: 0 <= i < |v| && i != |local| && i != |local| + 1 + |d1| ==> IsMailChar(v[i])
    ensures v[|local|] == '@' && v[|local| + 1 + |d1|] == '.'
  {
    forall i | 0 <= i < |v| && i != |local| && i != |local| + 1 + |d1| ensures IsMailChar(v[i]) {
      if i < |local| {
        assert v[i] == local[i];
      } else if i < |local| + 1 + |d1| {
        assert v[i] == d1[i - |local| - 1];
      } else {
        assert v[i] == d2[i - |local| - 2 - |d1|];
      }
    }
  }

  /** A slice of mail characters is a run. */
  lemma SliceIsRun(v: string, lo: int, hi: int)
    requires 0 <= lo < hi <= |v| && forall i :: lo <= i < hi ==> IsMailChar(v[i])
    ensures IsMailRun(v[lo..hi])
  {
    assert forall i :: 0 <= i < hi - lo ==> v[lo..hi][i] == v[lo + i];
  }

  /** A value the direct check accepts splits as the pattern says. */
  lemma EmailHasShape(v: string) returns (local: string, d1: string, d2: string)
    requires IsEmail(v)
    ensures EmailShape(v, local, d1, d2)
  {
    var a := FirstIndex(v, IsAt).value;
    var d := v[a + 1..];
    var inner := d[1..|d| - 1];
    var k :| 0 <= k < |inner| && inner[k] == '.';
    var dot := a + 2 + k;
    assert v[dot] == '.' by { assert inner[k] == d[k + 1] == v[dot]; }
    forall i | 0 <= i < |v| && i != a ensures IsMailChar(v[i]) {
      if i > a { assert v[i] == d[i - a - 1]; }
    }
    SliceIsRun(v, 0, a);
    SliceIsRun(v, a + 1, dot);
    SliceIsRun(v, dot + 1, |v|);
    local, d1, d2 := v[..a], v[a + 1..dot], v[dot + 1..];
    assert v == v[..a] + [v[a]] + v[a + 1..dot] + [v[dot]] + v[dot + 1..];
  }

  /** A value of the pattern's shape passes the direct check. */
  lemma ShapeIsEmail(v: string, local: string, d1: string, d2: string)
    requires EmailShape(v, local, d1, d2)
    ensures IsEmail(v)
  {
    MailRunsJoin(v, local, d1, d2);
    var a := |local|;
    forall i | 0 <= i < |v| ensures !IsJsSpace(v[i]) {
      if i != a && i != a + 1 + |d1| { assert IsMailChar(v[i]); }
    }
    assert FirstIndex(v, IsAt) == Some(a) by {
      assert forall j :: 0 <= j < a ==> IsMailChar(v[j]);
    }
    var d := v[a + 1..];
    assert '@' !in d by {
      forall j | 0 <= j < |d| ensures d[j] != '@' {
        assert d[j] == v[a + 1 + j];
        if a + 1 + j != a + 1 + |d1| { assert IsMailChar(v[a + 1 + j]); }
      }
    }
    assert d[|d1|] == '.';
    assert d[1..|d| - 1][|d1| - 1] == '.';
  }

  /** The direct check accepts exactly the values the regular expression matches. */
  lemma IsEmailMatchesPattern(v: string)
    ensures IsEmail(v) <==> exists local, d1, d2 :: EmailShape(v, local, d1, d2)
  {
    if IsEmail(v) {
      var local, d1, d2 := EmailHasShape(v);
    }
    if exists local, d1, d2 :: EmailShape(v, local, d1, d2) {
      var local, d1, d2 :| EmailShape(v, local, d1, d2);
      ShapeIsEmail(v, local, d1, d2);
    }
  }

  // ---------------------------------------------------------------------------------------
  // The username pattern `/^[a-zA-Z0-9_]+$/`

  predicate IsUsernameChar(c: char) {
    ('a' <= c <= 'z') || ('A' <= c <= 'Z') || ('0' <= c <= '9') || c == '_'
  }

  predicate IsUsernameText(v: string) {
    v != [] && forall i :: 0 <= i < |v| ==> IsUsernameChar(v[i])
  }

  // ---------------------------------------------------------------------------------------
  // validateField

  const RequiredMessage: string := "This field is required."
  const EmailMessage: string := "Please enter a valid email address."
  const UrlMessage: string := "Please enter a valid URL."
  const PasswordMessage: string := "Password must be at least 6 characters long."
  const UsernameShortMessage: string := "Username must be at least 3 characters long."
  const UsernameCharsMessage: string := "Username can only contain letters, numbers, and underscores."

  /** What `validateField` reads of an input element: its value, whether it has the
      `required` attribute, its `type` and its `name`. */
  datatype Field = Field(value: string, required: bool, kind: string, name: string)

  /** The outcome: the returned flag and the message shown under the field (empty when the
      field is valid). */
  datatype Verdict = Verdict(valid: bool, message: string)

  const Valid: Verdict := Verdict(true, "")

  /** `validateField(field)`. `urlParses` stands for `new URL(value)` not throwing. The
      branches are tried in the source's order and only the first that applies runs. */
  function ValidateField(f: Field, urlParses: string -> bool): (r: Verdict)
    ensures !r.valid <==> r.message != []
  {
    var value := JsTrim(f.value);
    if f.required && value == [] then Verdict(false, RequiredMessage)
    else if f.kind == "email" && value != [] then
      if IsEmail(value) then Valid else Verdict(false, EmailMessage)
    else if f.kind == "url" && value != [] then
      if urlParses(value) then Valid else Verdict(false, UrlMessage)
    else if f.kind == "password" && value != [] then
      if Utf16Length(value) < 6 then Verdict(false, PasswordMessage) else Valid
    else if f.name == "username" && value != [] then
      if Utf16Length(value) < 3 then Verdict(false, UsernameShortMessage)
      else if !IsUsernameText(value) then Verdict(false, UsernameCharsMessage)
      else Valid
    else Valid
  }

  /** A required field that is blank once trimmed is refused as required, whatever its
      type or name; a blank field that is not required is always valid. */
  lemma BlankFields(f: Field, urlParses: string -> bool)
    requires forall i :: 0 <= i < |f.value| ==> IsJsSpace(f.value[i])
    ensures f.required ==> ValidateField(f, urlParses) == Verdict(false, RequiredMessage)
    ensures !f.required ==> ValidateField(f, urlParses) == Valid
  {
  }

  /** An email field with a value is judged by the email pattern alone. */
  lemma EmailFieldRule(f: Field, urlParses: string -> bool)
    requires f.kind == "email" && JsTrim(f.value) != []
    ensures var r := ValidateField(f, urlParses);
            (r.valid <==> exists local, d1, d2 :: EmailShape(JsTrim(f.value), local, d1, d2))
            && (!r.valid ==> r.message == EmailMessage)
  {
    IsEmailMatchesPattern(JsTrim(f.value));
  }

  /** A password field with a value is refused exactly when it is shorter than six
      code units; the rule runs only for a field whose type is not email or url. */
  lemma PasswordFieldRule(f: Field, urlParses: string -> bool)
    requires f.kind == "password" && JsTrim(f.value) != []
    ensures var r := ValidateField(f, urlParses);
            (!r.valid <==> Utf16Length(JsTrim(f.value)) < 6)
            && (!r.valid ==> r.message == PasswordMessage)
  {
  }

  /** A username field (of a type with no rule of its own) is refused when shorter than
      three code units, and otherwise exactly when a character is outside `[a-zA-Z0-9_]`. */
  lemma UsernameFieldRule(f: Field, urlParses: string -> bool)
    requires f.name == "username" && JsTrim(f.value) != []
    requires f.kind != "email" && f.kind != "url" && f.kind != "password"
    ensures var v := JsTrim(f.value);
            var r := ValidateField(f, urlParses);
            (Utf16Length(v) < 3 ==> r == Verdict(false, UsernameShortMessage))
            && (Utf16Length(v) >= 3 ==>
                  (r.valid <==> forall i :: 0 <= i < |v| ==> IsUsernameChar(v[i]))
                  && (!r.valid ==> r.message == UsernameCharsMessage))
  {
  }

  /** Only the first applicable rule runs: a password field named `username` is never held
      to the username rules, and an email field is never held to the URL parser. */
  lemma FirstRuleOnly(value: string, urlParses: string -> bool)
    requires JsTrim(value) != [] && Utf16Length(JsTrim(value)) >= 6
    ensures ValidateField(Field(value, false, "password", "username"), urlParses) == Valid
    ensures forall parses: string -> bool ::
              ValidateField(Field(value, true, "email", "email"), parses)
              == ValidateField(Field(value, true, "email", "email"), urlParses)
  {
  }

  // ---------------------------------------------------------------------------------------
  // The upload size check

  /** `16 * 1024 * 1024` bytes. */
  const MaxUploadBytes: nat := 16 * 1024 * 1024

  /** The `change` handler of a file input: no file is accepted trivially; a file over the
      limit is refused (the input is cleared), one of at most the limit kept. */
  function FileAccepted(size: Option<nat>): (r: bool)
    ensures size.None? ==> r
  {
    match size
    case None => true
    case Some(n) => !(n > MaxUploadBytes)
  }

  /** The limit is 16 MiB, inclusive: a file of exactly 16777216 bytes is kept, one byte
      more is refused. */
  lemma FileLimit(n: nat)
    ensures FileAccepted(Some(n)) <==> n <= 16777216
    ensures FileAccepted(Some(16777216)) && !FileAccepted(Some(16777217))
  {
  }
}
