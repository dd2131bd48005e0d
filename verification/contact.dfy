/**
 * The contact form's submit handler: the field-by-field validation loop that
 * collects error messages, and the `isValidEmail` helper with its regular
 * expression `^[^\s@]+@[^\s@]+\.[^\s@]+$`.
 */
module Contact {
  import opened JsText

  // ---------------------------------------------------------------------------
  // isValidEmail
  // ---------------------------------------------------------------------------

  /** One or more characters of the class `[^\s@]`. */
  predicate IsRun(t: string) {
    |t| > 0 && forall k | 0 <= k < |t| :: t[k] != '@' && !IsSpace(t[k])
  }

  /** `s` splits, at an `@` in position `at` and a `.` in position `dot`, into
      the three runs the regular expression asks for. */
  predicate EmailSplit(s: string, at: int, dot: int) {
    && 0 <= at < dot < |s|
    && s[at] == '@' && s[dot] == '.'
    && IsRun(s[..at]) && IsRun(s[at + 1..dot]) && IsRun(s[dot + 1..])
  }

  /** What `/^[^\s@]+@[^\s@]+\.[^\s@]+$/.test(s)` accepts: some way of reading
      `s` as run, `@`, run, `.`, run. */
  ghost predicate MatchesEmailRegex(s: string) {
    exists at, dot :: EmailSplit(s, at, dot)
  }

  /** The shape of an accepted address in plain words: no white space, exactly
      one `@`, something before it, and after it a `.` that is neither the
      first nor the last character of the domain. */
  predicate EmailShape(s: string) {
    && (forall k | 0 <= k < |s| :: !IsSpace(s[k]))
    && multiset(s)['@'] == 1
    && exists at | 0 < at < |s| :: s[at] == '@' && DomainHasInnerDot(s[at + 1..])
  }

  predicate DomainHasInnerDot(d: string) {
    exists k | 0 < k < |d| - 1 :: d[k] == '.'
  }

  /** With an `@` at `at`, there is exactly one `@` iff no other position holds one. */
  lemma OnlyAt(s: string, at: int)
    requires 0 <= at < |s| && s[at] == '@'
    ensures multiset(s)['@'] == 1 <==> forall k | 0 <= k < |s| && k != at :: s[k] != '@'
  {
    var before, after := s[..at], s[at + 1..];
    assert s == before + [s[at]] + after;
    assert multiset(s)['@'] == multiset(before)['@'] + 1 + multiset(after)['@'];
    if multiset(s)['@'] == 1 {
      forall k | 0 <= k < |s| && k != at ensures s[k] != '@' {
        if k < at {
          assert s[k] == before[k];
        } else {
          assert s[k] == after[k - at - 1];
        }
      }
    } else {
      assert '@' in before || '@' in after;
    }
  }

  /** The regular expression accepts exactly the addresses of that shape. */
  lemma RegexIffShape(s: string)
    ensures MatchesEmailRegex(s) <==> EmailShape(s)
  {
    if MatchesEmailRegex(s) {
      var at, dot :| EmailSplit(s, at, dot);
      forall k | 0 <= k < |s| ensures !IsSpace(s[k]) && (k != at ==> s[k] != '@') {
        if k < at {
          assert s[k] == s[..at][k];
        } else if at < k < dot {
          assert s[k] == s[at + 1..dot][k - at - 1];
        } else if dot < k {
          assert s[k] == s[dot + 1..][k - dot - 1];
        }
      }
      OnlyAt(s, at);
      assert s[at + 1..][dot - at - 1] == '.';
      assert DomainHasInnerDot(s[at + 1..]);
    }
    if EmailShape(s) {
      var at :| 0 < at < |s| && s[at] == '@' && DomainHasInnerDot(s[at + 1..]);
      var d := s[at + 1..];
      var k :| 0 < k < |d| - 1 && d[k] == '.';
      var dot := at + 1 + k;
      OnlyAt(s, at);
      assert s[dot] == '.';
      assert IsRun(s[..at]);
      assert IsRun(s[at + 1..dot]);
      assert IsRun(s[dot + 1..]);
      assert EmailSplit(s, at, dot);
    }
  }

  /** `isValidEmail(email)`: one scan for white space and for the position of
      the single `@`, then a scan of the domain for an inner `.`. */
  method IsValidEmail(s: string) returns (ok: bool)
    ensures ok <==> MatchesEmailRegex(s)
  {
    var at := -1;
    var clean := true;
    var i := 0;
    while i < |s| && clean
      invariant 0 <= i <= |s|
      invariant -1 <= at < i
      invariant clean ==> forall k | 0 <= k < i :: !IsSpace(s[k])
      invariant clean && at == -1 ==> forall k | 0 <= k < i :: s[k] != '@'
      invariant clean && at >= 0 ==> s[at] == '@' && forall k | 0 <= k < i && k != at :: s[k] != '@'
      invariant !clean ==> !EmailShape(s)
    {
      if IsSpace(s[i]) {
        clean := false;
      } else if s[i] == '@' {
        if at >= 0 {
          OnlyAt(s, at);
          clean := false;
        } else {
          at := i;
        }
      }
      i := i + 1;
    }
    if !clean || at <= 0 {
      if clean && at == -1 {
        assert '@' !in s;
      } else if clean {
        OnlyAt(s, 0);
      }
      ok := false;
    } else {
      OnlyAt(s, at);
      ghost var d := s[at + 1..];
      var found := false;
      var j := at + 2;
      while j < |s| - 1 && !found
        invariant at + 2 <= j
        invariant found <==> exists k | 0 < k < j - at - 1 && k < |d| - 1 :: d[k] == '.'
      {
        if s[j] == '.' {
          assert d[j - at - 1] == '.';
          found := true;
        }
        j := j + 1;
      }
      ok := found;
      if !ok {
        forall a | 0 < a < |s| && s[a] == '@' ensures !DomainHasInnerDot(s[a + 1..]) {
          assert a == at;
        }
      }
    }
    RegexIffShape(s);
  }

  // ---------------------------------------------------------------------------
  // Form validation
  // ---------------------------------------------------------------------------

  /** One `(key, value)` entry of the form's data, in form order. */
  datatype Field = Field(key: string, value: string)

  datatype Submission =
    | Rejected(messages: seq<string>)  // alert of the joined messages, nothing sent
    | Sending                          // submit button disabled, "Sending..." shown

  const EmailMessage: string := "Please enter a valid email address"
  const RequiredSuffix: string := " is required"

  /** ASCII `toUpperCase` of one character. */
  function UpperChar(c: char): (u: char)
    ensures 'a' <= c <= 'z' ==> 'A' <= u <= 'Z' && u as int - c as int == 'A' as int - 'a' as int
    ensures !('a' <= c <= 'z') ==> u == c
  {
    if 'a' <= c <= 'z' then (c as int - 'a' as int + 'A' as int) as char else c
  }

  /** `key.charAt(0).toUpperCase() + key.slice(1)` (`charAt(0)` of the empty
      key is the empty string). */
  function Capitalize(key: string): (r: string)
    ensures |r| == |key|
    ensures |key| > 0 ==> r[0] == UpperChar(key[0]) && r[1..] == key[1..]
  {
    if key == [] then [] else [UpperChar(key[0])] + key[1..]
  }

  function RequiredMessage(key: string): string {
    Capitalize(key) + RequiredSuffix
  }

  /** The messages one field contributes, in the order the loop body pushes them. */
  ghost function FieldErrors(f: Field): seq<string> {
    (if Trim(f.value) == [] then [RequiredMessage(f.key)] else [])
    + (if f.key == "email" && !MatchesEmailRegex(f.value) then [EmailMessage] else [])
  }

  /** The messages of all fields, field after field. */
  ghost function ExpectedErrors(fields: seq<Field>): seq<string> {
    Flatten(seq(|fields|, i requires 0 <= i < |fields| => FieldErrors(fields[i])))
  }

  /** The blocks of `xss` one after another. */
  function Flatten<T>(xss: seq<seq<T>>): seq<T> {
    if xss == [] then [] else Flatten(xss[..|xss| - 1]) + xss[|xss| - 1]
  }

  /** A field that passes: non-blank, and a well-formed address if it is `email`. */
  ghost predicate FieldOk(f: Field) {
    !AllSpace(f.value) && (f.key == "email" ==> EmailShape(f.value))
  }

  /** The validation loop: walks the fields in order, pushing a "… is required"
      message for a blank value and the email message for a malformed `email`. */
  method Validate(fields: seq<Field>) returns (isValid: bool, errors: seq<string>)
    ensures errors == ExpectedErrors(fields)
    ensures isValid <==> forall f | f in fields :: FieldOk(f)
  {
    isValid := true;
    errors := [];
    var i := 0;
    while i < |fields|
      invariant 0 <= i <= |fields|
      invariant errors == ExpectedErrors(fields[..i])
      invariant isValid <==> errors == []
    {
      var f := fields[i];
      if Trim(f.value) == [] {
        isValid := false;
        errors := errors + [RequiredMessage(f.key)];
      }
      if f.key == "email" {
        var ok := IsValidEmail(f.value);
        if !ok {
          isValid := false;
          errors := errors + [EmailMessage];
        }
      }
      ErrorsStep(fields, i);
      i := i + 1;
    }
    assert fields[..i] == fields;
    NoErrorsIff(fields);
  }

  /** The submit handler: rejected with the collected messages iff any field
      fails, otherwise the (simulated) sending starts. */
  method Submit(fields: seq<Field>) returns (outcome: Submission)
    ensures outcome.Rejected? <==> exists f | f in fields :: !FieldOk(f)
    ensures outcome.Rejected? ==> outcome.messages == ExpectedErrors(fields) && outcome.messages != []
  {
    var isValid, errors := Validate(fields);
    NoErrorsIff(fields);
    if !isValid {
      return Rejected(errors);
    }
    return Sending;
  }

  /** A field contributes no message exactly when it passes. */
  lemma FieldErrorsEmptyIff(f: Field)
    ensures FieldErrors(f) == [] <==> FieldOk(f)
  {
    TrimEmptyIff(f.value);
    RegexIffShape(f.value);
  }

  /** No message at all exactly when every field passes. */
  lemma NoErrorsIff(fields: seq<Field>)
    ensures ExpectedErrors(fields) == [] <==> forall f | f in fields :: FieldOk(f)
  {
    var blocks := seq(|fields|, i requires 0 <= i < |fields| => FieldErrors(fields[i]));
    FlattenEmptyIff(blocks);
    forall i | 0 <= i < |fields| ensures blocks[i] == [] <==> FieldOk(fields[i]) {
      FieldErrorsEmptyIff(fields[i]);
    }
  }

  /** The messages of field `i` sit, as a block, between those of the fields
      before it and those of the fields after it. */
  lemma ErrorsInFieldOrder(fields: seq<Field>, i: int)
    requires 0 <= i < |fields|
    ensures ExpectedErrors(fields)
         == ExpectedErrors(fields[..i]) + FieldErrors(fields[i]) + ExpectedErrors(fields[i + 1..])
  {
    var blocks := seq(|fields|, j requires 0 <= j < |fields| => FieldErrors(fields[j]));
    var before := seq(i, j requires 0 <= j < i => FieldErrors(fields[..i][j]));
    var after := seq(|fields| - i - 1, j requires 0 <= j < |fields| - i - 1 => FieldErrors(fields[i + 1..][j]));
    assert blocks == before + [FieldErrors(fields[i])] + after;
    FlattenConcat(before + [FieldErrors(fields[i])], after);
    FlattenConcat(before, [FieldErrors(fields[i])]);
    assert Flatten([FieldErrors(fields[i])]) == FieldErrors(fields[i]);
  }

  /** Taking one more field appends that field's messages. */
  lemma ErrorsStep(fields: seq<Field>, i: int)
    requires 0 <= i < |fields|
    ensures ExpectedErrors(fields[..i + 1]) == ExpectedErrors(fields[..i]) + FieldErrors(fields[i])
  {
    var blocks := seq(i + 1, j requires 0 <= j < i + 1 => FieldErrors(fields[..i + 1][j]));
    assert blocks[..i] == seq(i, j requires 0 <= j < i => FieldErrors(fields[..i][j]));
  }

  /** Flattening is empty exactly when every block is. */
  lemma {:induction false} FlattenEmptyIff<T>(xss: seq<seq<T>>)
    ensures Flatten(xss) == [] <==> forall i | 0 <= i < |xss| :: xss[i] == []
  {
    if xss != [] {
      FlattenEmptyIff(xss[..|xss| - 1]);
    }
  }

  /** Flattening distributes over concatenation of block lists. */
  lemma {:induction false} FlattenConcat<T>(a: seq<seq<T>>, b: seq<seq<T>>)
    ensures Flatten(a + b) == Flatten(a) + Flatten(b)
  {
    if b == [] {
      assert a + b == a;
    } else {
      FlattenConcat(a, b[..|b| - 1]);
      assert (a + b)[..|a + b| - 1] == a + b[..|b| - 1];
    }
  }

  /** A blank `email` field produces both messages, "Email is required" first. */
  lemma BlankEmailBothMessages(value: string)
    requires AllSpace(value)
    ensures FieldErrors(Field("email", value)) == ["Email is required", EmailMessage]
  {
    TrimEmptyIff(value);
    assert UpperChar('e') == 'E';
    assert Capitalize("email") == "Email";
    assert RequiredMessage("email") == "Email is required";
  }
}
