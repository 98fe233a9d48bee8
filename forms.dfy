/**
 * The forms of the form demo: the three custom validators of FortyTwoForm,
 * the Length(min, max) bounds each form declares, and UploadForm's
 * FileRequired / FileAllowed pair.
 */
module Forms {
  import opened Wrappers
  import opened Strings

  // ---------------------------------------------------------------------------
  // FortyTwoForm and its custom validators

  /** The data of a FortyTwoForm: the two integer fields (None when no integer was given) and the check box. */
  datatype FortyTwoData = FortyTwoData(answer: Option<int>, answer2: Option<int>, remember: bool)

  /** `validate_answer`: the field passes only when it holds 42. */
  function ValidateAnswer(data: Option<int>): (err: Option<string>)
    ensures err == None <==> data == Some(42)
    ensures err != None ==> err == Some("Must be 42.")
  {
    if data != Some(42) then Some("Must be 42.") else None
  }

  /** `validate_answer2`: the field passes only when it holds 43. */
  function ValidateAnswer2(data: Option<int>): (err: Option<string>)
    ensures err == None <==> data == Some(43)
    ensures err != None ==> err == Some("Must be 43.")
  {
    if data != Some(43) then Some("Must be 43.") else None
  }

  /** `validate_remember`: a ticked box is an error. */
  function ValidateRemember(data: bool): (err: Option<string>)
    ensures err == None <==> !data
    ensures err != None ==> err == Some("Must be false.")
  {
    if data then Some("Must be false.") else None
  }

  /** The entry a failing validator leaves in `form.errors`. */
  function FieldErrors(field: string, err: Option<string>): map<string, seq<string>> {
    match err
    case None => map[]
    case Some(msg) => map[field := [msg]]
  }

  /** `form.errors` of a FortyTwoForm after validation: each field's own validator, side by side. */
  function FortyTwoErrors(d: FortyTwoData): (errs: map<string, seq<string>>)
    ensures errs.Keys <= {"answer", "answer2", "remember"}
    ensures forall k :: k in errs ==> |errs[k]| == 1
  {
    FieldErrors("answer", ValidateAnswer(d.answer))
    + FieldErrors("answer2", ValidateAnswer2(d.answer2))
    + FieldErrors("remember", ValidateRemember(d.remember))
  }

  /** The form validates exactly when answer is 42, answer2 is 43 and the box is clear. */
  lemma FortyTwoValidIff(d: FortyTwoData)
    ensures FortyTwoErrors(d) == map[] <==> d.answer == Some(42) && d.answer2 == Some(43) && !d.remember
  {
    if FortyTwoErrors(d) == map[] {
      assert "answer" !in FortyTwoErrors(d);
      assert "answer2" !in FortyTwoErrors(d);
      assert "remember" !in FortyTwoErrors(d);
    }
  }

  /**
   * Each field's errors depend on that field alone: two submissions that agree
   * on a field get the same errors for it, whatever the other fields hold.
   */
  lemma FortyTwoErrorsAreLocal(d1: FortyTwoData, d2: FortyTwoData)
    ensures d1.answer == d2.answer ==>
              ("answer" in FortyTwoErrors(d1) <==> "answer" in FortyTwoErrors(d2))
              && ("answer" in FortyTwoErrors(d1) ==> FortyTwoErrors(d1)["answer"] == FortyTwoErrors(d2)["answer"])
    ensures d1.answer2 == d2.answer2 ==>
              ("answer2" in FortyTwoErrors(d1) <==> "answer2" in FortyTwoErrors(d2))
              && ("answer2" in FortyTwoErrors(d1) ==> FortyTwoErrors(d1)["answer2"] == FortyTwoErrors(d2)["answer2"])
    ensures d1.remember == d2.remember ==>
              ("remember" in FortyTwoErrors(d1) <==> "remember" in FortyTwoErrors(d2))
              && ("remember" in FortyTwoErrors(d1) ==> FortyTwoErrors(d1)["remember"] == FortyTwoErrors(d2)["remember"])
  {
    FortyTwoErrorMessages(d1);
    FortyTwoErrorMessages(d2);
  }

  /** The errors recorded for a field are exactly its own validator's message. */
  lemma FortyTwoErrorMessages(d: FortyTwoData)
    ensures "answer" in FortyTwoErrors(d) <==> d.answer != Some(42)
    ensures "answer" in FortyTwoErrors(d) ==> FortyTwoErrors(d)["answer"] == ["Must be 42."]
    ensures "answer2" in FortyTwoErrors(d) <==> d.answer2 != Some(43)
    ensures "answer2" in FortyTwoErrors(d) ==> FortyTwoErrors(d)["answer2"] == ["Must be 43."]
    ensures "remember" in FortyTwoErrors(d) <==> d.remember
    ensures "remember" in FortyTwoErrors(d) ==> FortyTwoErrors(d)["remember"] == ["Must be false."]
    ensures FortyTwoErrors(d).Keys <= {"answer", "answer2", "remember"}
  {
  }

  // ---------------------------------------------------------------------------
  // Declared Length(min, max) bounds

  /** One `Length(min, max)` validator attached to a named field. */
  datatype LengthRule = LengthRule(field: string, min: nat, max: nat)

  /** WTForms Length: the field's length lies in [min, max]; a missing value has length 0. */
  predicate WithinLength(value: string, rule: LengthRule) {
    rule.min <= |value| <= rule.max
  }

  function FieldValue(data: map<string, string>, field: string): string {
    if field in data then data[field] else ""
  }

  const LoginForm: seq<LengthRule> := [LengthRule("password", 8, 128)]
  const NewPostForm: seq<LengthRule> := [LengthRule("title", 1, 50)]
  const SigninForm: seq<LengthRule> := [LengthRule("username", 1, 20), LengthRule("password", 8, 128)]
  const RegisterForm: seq<LengthRule> :=
    [LengthRule("username", 1, 20), LengthRule("email", 1, 254), LengthRule("password", 8, 128)]
  const SigninForm2: seq<LengthRule> := [LengthRule("username", 1, 24), LengthRule("password", 8, 128)]
  const RegisterForm2: seq<LengthRule> :=
    [LengthRule("username", 1, 24), LengthRule("email", 1, 254), LengthRule("password", 8, 128)]
  const RichTextForm: seq<LengthRule> := [LengthRule("title", 1, 50)]

  /** The forms that declare a password field. */
  const FormsWithPassword: seq<seq<LengthRule>> := [LoginForm, SigninForm, RegisterForm, SigninForm2, RegisterForm2]

  /** The fields whose Length rule fails, in declaration order. */
  function LengthErrors(rules: seq<LengthRule>, data: map<string, string>): (errs: seq<string>)
    ensures |errs| <= |rules|
    ensures forall f :: f in errs <==> exists r :: r in rules && r.field == f && !WithinLength(FieldValue(data, f), r)
  {
    if rules == [] then []
    else
      var rest := LengthErrors(rules[1..], data);
      assert forall r :: r in rules <==> r == rules[0] || r in rules[1..];
      if WithinLength(FieldValue(data, rules[0].field), rules[0]) then rest else [rules[0].field] + rest
  }

  /** Every form that has a password field bounds it to 8..128 characters. */
  lemma PasswordBoundsUniform()
    ensures forall form :: form in FormsWithPassword ==>
              LengthRule("password", 8, 128) in form
              && forall r :: r in form && r.field == "password" ==> r.min == 8 && r.max == 128
  {
  }

  /** A submission that satisfies SigninForm's bounds satisfies SigninForm2's, but not conversely. */
  lemma SigninBoundsLoosened(data: map<string, string>)
    ensures LengthErrors(SigninForm, data) == [] ==> LengthErrors(SigninForm2, data) == []
    ensures LengthErrors(RegisterForm, data) == [] ==> LengthErrors(RegisterForm2, data) == []
  {
    if LengthErrors(SigninForm, data) == [] {
      assert SigninForm[0] in SigninForm && SigninForm[1] in SigninForm;
    }
    if LengthErrors(RegisterForm, data) == [] {
      assert RegisterForm[0] in RegisterForm && RegisterForm[1] in RegisterForm && RegisterForm[2] in RegisterForm;
    }
  }

  /** A username of 21 to 24 characters is what tells the two sign-in forms apart. */
  lemma UsernameBoundsDiffer(username: string, password: string)
    requires 21 <= |username| <= 24 && 8 <= |password| <= 128
    ensures LengthErrors(SigninForm, map["username" := username, "password" := password]) == ["username"]
    ensures LengthErrors(SigninForm2, map["username" := username, "password" := password]) == []
  {
    var data := map["username" := username, "password" := password];
    assert FieldValue(data, "username") == username;
    assert FieldValue(data, "password") == password;
  }

  /** Titles of NewPostForm and RichTextForm share the bound 1..50. */
  lemma TitleBounds(data: map<string, string>)
    ensures LengthErrors(NewPostForm, data) == LengthErrors(RichTextForm, data)
    ensures "title" in LengthErrors(NewPostForm, data) <==> !(1 <= |FieldValue(data, "title")| <= 50)
  {
    assert NewPostForm[0] in NewPostForm;
  }

  /** Both registration forms bound the email to 1..254 characters. */
  lemma EmailBounds(data: map<string, string>)
    ensures "email" in LengthErrors(RegisterForm, data) <==> !(1 <= |FieldValue(data, "email")| <= 254)
    ensures "email" in LengthErrors(RegisterForm2, data) <==> !(1 <= |FieldValue(data, "email")| <= 254)
  {
    OnlyRuleForField(RegisterForm, data, 1);
    OnlyRuleForField(RegisterForm2, data, 1);
  }

  /** A field with a single rule is reported exactly when that rule fails. */
  lemma OnlyRuleForField(rules: seq<LengthRule>, data: map<string, string>, i: nat)
    requires i < |rules| && forall j :: 0 <= j < |rules| && j != i ==> rules[j].field != rules[i].field
    ensures rules[i].field in LengthErrors(rules, data) <==> !WithinLength(FieldValue(data, rules[i].field), rules[i])
  {
    assert rules[i] in rules;
  }

  // ---------------------------------------------------------------------------
  // UploadForm: FileRequired() and FileAllowed([...])

  /** The extensions UploadForm's FileAllowed validator lists, in its order. */
  const UploadFormExtensions: seq<string> := ["jpg", "jpeg", "png", "gif"]

  /** FileAllowed: the lower-cased file name ends with "." followed by one of the listed extensions. */
  predicate FileAllowed(filename: string, extensions: seq<string>) {
    exists x :: x in extensions && EndsWith(Lower(filename), "." + x)
  }

  datatype UploadFormError = FileMissing | ExtensionNotApproved

  /**
   * UploadForm's photo field. `photo` is the uploaded part's file name, None when
   * no part was sent; FileRequired stops the chain on a missing or unnamed file.
   */
  function UploadFormErrors(photo: Option<string>): (errs: seq<UploadFormError>)
    ensures errs == [] <==> photo.Some? && photo.value != "" && FileAllowed(photo.value, UploadFormExtensions)
    ensures |errs| <= 1
  {
    if photo.None? || photo.value == "" then [FileMissing]
    else if !FileAllowed(photo.value, UploadFormExtensions) then [ExtensionNotApproved]
    else []
  }
}
