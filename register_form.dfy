/** The state and the validation logic of the registration page
    (client/src/pages/Register.jsx): the form fields, the dynamic skill and
    medical-history lists, the error dictionary, `handleChange`,
    `validateForm`, the add / remove / update helpers and the filters
    applied on submit. Rendering and the request itself are not modelled;
    submit returns the payload it would post. */
module RegisterForm {
  import opened Js

  datatype FormField = Username | Name | Birthday | PhoneNumber | Address | Password | ConfirmPassword | Gender

  datatype SkillDraft = SkillDraft(name: string, level: string)
  datatype SkillField = SkillName | SkillLevel

  datatype MedicalDraft = MedicalDraft(condition: string, treatment: string, remarks: string)
  datatype MedicalField = Condition | Treatment | Remarks

  /** The body posted to /user/register. */
  datatype RegisterRequest = RegisterRequest(
    username: string, name: string, birthday: string, phoneNumber: string, address: string,
    password: string, gender: string, medical: seq<MedicalDraft>, skills: seq<SkillDraft>,
    dependencies: seq<string>)

  const UsernameTooShort: string := "Username must be at least 4 characters"
  const UsernameHasSpace: string := "Username cannot contain spaces"

  predicate Complete(form: map<FormField, string>) {
    forall f: FormField :: f in form
  }

  predicate AllSpace(s: string) {
    forall i :: 0 <= i < |s| ==> IsJsWhitespace(s[i])
  }

  /** The rule for each field, stated field by field: the message the form
      shows for `f`, if any. */
  function ErrorFor(form: map<FormField, string>, f: FormField): Option<string>
    requires Complete(form)
  {
    match f
    case Username =>
      if ' ' in form[Username] then Some(UsernameHasSpace)
      else if JsLength(form[Username]) < 4 then Some(UsernameTooShort)
      else None
    case Name => if AllSpace(form[Name]) then Some("Name is required") else None
    case Birthday => if form[Birthday] == "" then Some("Birthday is required") else None
    case PhoneNumber => if AllSpace(form[PhoneNumber]) then Some("Phone number is required") else None
    case Address => if AllSpace(form[Address]) then Some("Address is required") else None
    case Password => if JsLength(form[Password]) < 8 then Some("Password must be at least 8 characters") else None
    case ConfirmPassword => if form[Password] != form[ConfirmPassword] then Some("Passwords do not match") else None
    case Gender => if form[Gender] == "" then Some("Please select a gender") else None
  }

  /** `errors` shows exactly the message the rule for `f` gives. */
  predicate Agrees(errors: map<FormField, string>, form: map<FormField, string>, f: FormField)
    requires Complete(form)
  {
    (f in errors <==> ErrorFor(form, f).Some?) && (f in errors ==> errors[f] == ErrorFor(form, f).value)
  }

  /** The position of the field's rule in `validateForm`. */
  function Rank(f: FormField): (k: nat)
    ensures k < 8
  {
    match f
    case Username => 0
    case Name => 1
    case Birthday => 2
    case PhoneNumber => 3
    case Address => 4
    case Password => 5
    case ConfirmPassword => 6
    case Gender => 7
  }

  /** `errors` agrees with the first `done` rules and holds nothing else. */
  predicate AgreesOn(errors: map<FormField, string>, form: map<FormField, string>, done: nat)
    requires Complete(form)
  {
    (forall f :: Rank(f) < done ==> Agrees(errors, form, f)) && forall f :: f in errors ==> Rank(f) < done
  }

  /** One rule of `validateForm`, `if (failed) newErrors[f] = message`,
      whose test is exactly the field's rule: it extends the agreement by
      that field. */
  method Flag(errors: map<FormField, string>, form: map<FormField, string>,
              f: FormField, failed: bool, message: string)
    returns (r: map<FormField, string>)
    requires Complete(form) && AgreesOn(errors, form, Rank(f))
    requires failed <==> ErrorFor(form, f).Some?
    requires failed ==> message == ErrorFor(form, f).value
    ensures AgreesOn(r, form, Rank(f) + 1)
  {
    r := errors;
    if failed {
      r := r[f := message];
    }
    forall g | Rank(g) < Rank(f) + 1
      ensures Agrees(r, form, g)
    {
      if g != f {
        assert Agrees(errors, form, g);
      }
    }
  }

  /** The two username rules together: the space message overrides the length message. */
  lemma UsernameStep(first: map<FormField, string>, second: map<FormField, string>, form: map<FormField, string>)
    requires Complete(form)
    requires (form[Username] == "" || JsLength(form[Username]) < 4) ==> first == map[Username := UsernameTooShort]
    requires !(form[Username] == "" || JsLength(form[Username]) < 4) ==> first == map[]
    requires ' ' in form[Username] ==> second == first[Username := UsernameHasSpace]
    requires ' ' !in form[Username] ==> second == first
    ensures AgreesOn(second, form, 1)
  {
  }

  /** The two username rules of `validateForm`. */
  method UsernameRules(form: map<FormField, string>) returns (errors: map<FormField, string>)
    requires Complete(form)
    ensures AgreesOn(errors, form, 1)
  {
    var first := map[];
    if form[Username] == "" || JsLength(form[Username]) < 4 {
      first := first[Username := UsernameTooShort];
    }
    errors := first;
    if ' ' in form[Username] {
      errors := errors[Username := UsernameHasSpace];
    }
    UsernameStep(first, errors, form);
  }

  /** The JavaScript test `!s || !s.trim()` is the rule's "only white space". */
  lemma BlankIff(s: string)
    ensures (s == "" || |Trim(s)| == 0) <==> AllSpace(s)
  {
    TrimEmptyIff(s);
  }

  /** The name and birthday "is required" rules of `validateForm`. */
  method PresenceRules(before: map<FormField, string>, form: map<FormField, string>)
    returns (errors: map<FormField, string>)
    requires Complete(form) && AgreesOn(before, form, 1)
    ensures AgreesOn(errors, form, 3)
  {
    BlankIff(form[Name]);
    errors := Flag(before, form, Name, form[Name] == "" || |Trim(form[Name])| == 0, "Name is required");
    errors := Flag(errors, form, Birthday, form[Birthday] == "", "Birthday is required");
  }

  /** The phone number and address "is required" rules of `validateForm`. */
  method ContactRules(before: map<FormField, string>, form: map<FormField, string>)
    returns (errors: map<FormField, string>)
    requires Complete(form) && AgreesOn(before, form, 3)
    ensures AgreesOn(errors, form, 5)
  {
    BlankIff(form[PhoneNumber]);
    BlankIff(form[Address]);
    errors := Flag(before, form, PhoneNumber, form[PhoneNumber] == "" || |Trim(form[PhoneNumber])| == 0,
                   "Phone number is required");
    errors := Flag(errors, form, Address, form[Address] == "" || |Trim(form[Address])| == 0, "Address is required");
  }

  /** The password, confirmation and gender rules of `validateForm`. */
  method PasswordRules(before: map<FormField, string>, form: map<FormField, string>)
    returns (errors: map<FormField, string>)
    requires Complete(form) && AgreesOn(before, form, 5)
    ensures AgreesOn(errors, form, 8)
  {
    errors := Flag(before, form, Password, form[Password] == "" || JsLength(form[Password]) < 8,
                   "Password must be at least 8 characters");
    errors := Flag(errors, form, ConfirmPassword, form[Password] != form[ConfirmPassword], "Passwords do not match");
    errors := Flag(errors, form, Gender, form[Gender] == "", "Please select a gender");
  }

  /** The body of `validateForm` up to `setErrors`: every rule is checked,
      none stops the others, and the dictionary holds exactly the messages
      of the rules that fail. */
  method CollectErrors(form: map<FormField, string>) returns (newErrors: map<FormField, string>)
    requires Complete(form)
    ensures forall f :: f in newErrors <==> ErrorFor(form, f).Some?
    ensures forall f :: f in newErrors ==> newErrors[f] == ErrorFor(form, f).value
  {
    newErrors := UsernameRules(form);
    newErrors := PresenceRules(newErrors, form);
    newErrors := ContactRules(newErrors, form);
    newErrors := PasswordRules(newErrors, form);
    AgreesAll(newErrors, form);
  }

  lemma AgreesAll(errors: map<FormField, string>, form: map<FormField, string>)
    requires Complete(form) && AgreesOn(errors, form, 8)
    ensures forall f :: f in errors <==> ErrorFor(form, f).Some?
    ensures forall f :: f in errors ==> errors[f] == ErrorFor(form, f).value
  {
    forall f
      ensures (f in errors <==> ErrorFor(form, f).Some?) && (f in errors ==> errors[f] == ErrorFor(form, f).value)
    {
      assert Rank(f) < 8;
      assert Agrees(errors, form, f);
    }
  }

  /** A short password that is also mistyped in the confirmation gets both messages. */
  lemma PasswordErrorsTogether(form: map<FormField, string>)
    requires Complete(form) && JsLength(form[Password]) < 8 && form[ConfirmPassword] != form[Password]
    ensures ErrorFor(form, Password).Some? && ErrorFor(form, ConfirmPassword).Some?
  {
  }

  /** The length rules count UTF-16 code units, as `.length` does: two
      emoji make a four-unit username, which the length rule accepts. */
  lemma EmojiUsernameLongEnough(form: map<FormField, string>)
    requires Complete(form) && form[Username] == "\U{1F600}\U{1F600}"
    ensures ErrorFor(form, Username).None?
  {
    var u := form[Username];
    assert u[1..] == "\U{1F600}" && u[1..][1..] == "";
    assert JsLength(u[1..]) == 2;
    assert JsLength(u) == 4;
    assert ' ' !in u by {
      assert forall i :: 0 <= i < |u| ==> u[i] == '\U{1F600}';
    }
  }

  // ------------------------------------------------------------ list helpers

  /** `[...xs, x]` with a blank skill. */
  function AddSkill(skills: seq<SkillDraft>): (r: seq<SkillDraft>)
    ensures |r| == |skills| + 1 && r[..|skills|] == skills && r[|skills|] == SkillDraft("", "")
  {
    skills + [SkillDraft("", "")]
  }

  /** `[...xs, x]` with a blank medical entry. */
  function AddMedical(medical: seq<MedicalDraft>): (r: seq<MedicalDraft>)
    ensures |r| == |medical| + 1 && r[..|medical|] == medical && r[|medical|] == MedicalDraft("", "", "")
  {
    medical + [MedicalDraft("", "", "")]
  }

  /** `xs.filter((_, i) => i !== index)`: exactly the entry at `index` goes,
      the others keep their order; an index outside the list removes nothing. */
  function RemoveAt<T>(xs: seq<T>, index: int): (r: seq<T>)
    ensures 0 <= index < |xs| ==> r == xs[..index] + xs[index + 1..]
    ensures !(0 <= index < |xs|) ==> r == xs
  {
    if xs == [] then []
    else (if index == 0 then [] else [xs[0]]) + RemoveAt(xs[1..], index - 1)
  }

  /** `updated[index] = {...updated[index], [field]: value}` on a skill. */
  function UpdateSkill(skills: seq<SkillDraft>, index: nat, field: SkillField, value: string): (r: seq<SkillDraft>)
    requires index < |skills|
    ensures |r| == |skills|
    ensures forall i :: 0 <= i < |skills| && i != index ==> r[i] == skills[i]
    ensures field == SkillName ==> r[index].name == value && r[index].level == skills[index].level
    ensures field == SkillLevel ==> r[index].level == value && r[index].name == skills[index].name
  {
    skills[index := match field
                    case SkillName => skills[index].(name := value)
                    case SkillLevel => skills[index].(level := value)]
  }

  /** `updated[index] = {...updated[index], [field]: value}` on a medical entry. */
  function UpdateMedical(medical: seq<MedicalDraft>, index: nat, field: MedicalField, value: string): (r: seq<MedicalDraft>)
    requires index < |medical|
    ensures |r| == |medical|
    ensures forall i :: 0 <= i < |medical| && i != index ==> r[i] == medical[i]
    ensures field == Condition ==> r[index] == medical[index].(condition := value)
    ensures field == Treatment ==> r[index] == medical[index].(treatment := value)
    ensures field == Remarks ==> r[index] == medical[index].(remarks := value)
  {
    medical[index := match field
                     case Condition => medical[index].(condition := value)
                     case Treatment => medical[index].(treatment := value)
                     case Remarks => medical[index].(remarks := value)]
  }

  // ------------------------------------------------------------ submit filters

  /** `a` is `b` with some elements left out, the rest in their order. */
  predicate IsSubsequence<T(==)>(a: seq<T>, b: seq<T>)
    decreases |b|
  {
    if a == [] then true
    else if b == [] then false
    else (a[0] == b[0] && IsSubsequence(a[1..], b[1..])) || IsSubsequence(a, b[1..])
  }

  predicate KeepSkill(s: SkillDraft) {
    Trim(s.name) != "" && s.level != ""
  }

  predicate KeepMedical(m: MedicalDraft) {
    Trim(m.condition) != ""
  }

  /** `skills.filter(skill => skill.name.trim() && skill.level)` */
  function ValidSkills(skills: seq<SkillDraft>): (r: seq<SkillDraft>)
    ensures forall s :: s in r <==> s in skills && KeepSkill(s)
    ensures IsSubsequence(r, skills)
    ensures forall x :: multiset(r)[x] == if KeepSkill(x) then multiset(skills)[x] else 0
  {
    if skills == [] then []
    else
      var rest := ValidSkills(skills[1..]);
      assert skills == [skills[0]] + skills[1..];
      assert multiset(skills) == multiset{skills[0]} + multiset(skills[1..]);
      if KeepSkill(skills[0]) then
        assert ([skills[0]] + rest)[1..] == rest;
        [skills[0]] + rest
      else
        SubsequenceSkip(rest, skills);
        rest
  }

  /** `medical.filter(med => med.condition.trim())` */
  function ValidMedical(medical: seq<MedicalDraft>): (r: seq<MedicalDraft>)
    ensures forall m :: m in r <==> m in medical && KeepMedical(m)
    ensures IsSubsequence(r, medical)
    ensures forall x :: multiset(r)[x] == if KeepMedical(x) then multiset(medical)[x] else 0
  {
    if medical == [] then []
    else
      var rest := ValidMedical(medical[1..]);
      assert medical == [medical[0]] + medical[1..];
      assert multiset(medical) == multiset{medical[0]} + multiset(medical[1..]);
      if KeepMedical(medical[0]) then
        assert ([medical[0]] + rest)[1..] == rest;
        [medical[0]] + rest
      else
        SubsequenceSkip(rest, medical);
        rest
  }

  lemma SubsequenceSkip<T>(a: seq<T>, b: seq<T>)
    requires b != [] && IsSubsequence(a, b[1..])
    ensures IsSubsequence(a, b)
  {
  }

  /** A skill whose name is only white space is never submitted, and the
      condition of a submitted medical entry has a visible character. */
  lemma SubmittedEntriesNonBlank(skills: seq<SkillDraft>, medical: seq<MedicalDraft>)
    ensures forall s :: s in ValidSkills(skills) ==> !AllSpace(s.name) && s.level != ""
    ensures forall m :: m in ValidMedical(medical) ==> !AllSpace(m.condition)
  {
    forall s | s in ValidSkills(skills) ensures !AllSpace(s.name) {
      TrimEmptyIff(s.name);
    }
    forall m | m in ValidMedical(medical) ensures !AllSpace(m.condition) {
      TrimEmptyIff(m.condition);
    }
  }

  class RegisterPage {
    var form: map<FormField, string>
    var skills: seq<SkillDraft>
    var medical: seq<MedicalDraft>
    var errors: map<FormField, string>

    ghost predicate Valid()
      reads this
    {
      Complete(form)
    }

    /** The initial state: every field empty, no entries, no errors. */
    constructor ()
      ensures Valid() && forall f :: form[f] == ""
      ensures skills == [] && medical == [] && errors == map[]
    {
      form := map[Username := "", Name := "", Birthday := "", PhoneNumber := "", Address := "",
                  Password := "", ConfirmPassword := "", Gender := ""];
      skills, medical, errors := [], [], map[];
      new;
      forall f ensures f in form && form[f] == "" {
        match f
        case Username =>
        case Name =>
        case Birthday =>
        case PhoneNumber =>
        case Address =>
        case Password =>
        case ConfirmPassword =>
        case Gender =>
      }
    }

    /** `handleChange`: only the named field changes, and only its error is
        cleared (to the empty string, and only if it was showing). */
    method HandleChange(name: FormField, value: string)
      requires Valid()
      modifies this
      ensures Valid()
      ensures form == old(form)[name := value]
      ensures errors == if name in old(errors) && old(errors)[name] != "" then old(errors)[name := ""] else old(errors)
      ensures skills == old(skills) && medical == old(medical)
    {
      form := form[name := value];
      if name in errors && errors[name] != "" {
        errors := errors[name := ""];
      }
    }

    /** `validateForm`: the error dictionary is replaced by the new errors;
        the result is true iff there are none. */
    method ValidateForm() returns (ok: bool)
      requires Valid()
      modifies this
      ensures Valid()
      ensures forall f :: f in errors <==> ErrorFor(form, f).Some?
      ensures forall f :: f in errors ==> errors[f] == ErrorFor(form, f).value
      ensures ok <==> forall f :: ErrorFor(form, f).None?
      ensures form == old(form) && skills == old(skills) && medical == old(medical)
    {
      var newErrors := CollectErrors(form);
      errors := newErrors;
      ok := |newErrors.Keys| == 0;
      if !ok {
        var f :| f in newErrors.Keys;
      } else {
        assert forall f :: f !in newErrors;
      }
    }

    /** `handleSubmit` up to the request: nothing is sent unless the form
        is valid; the payload carries the filtered lists and no dependencies. */
    method HandleSubmit() returns (request: Option<RegisterRequest>)
      requires Valid()
      modifies this
      ensures Valid()
      ensures request.Some? <==> forall f :: ErrorFor(form, f).None?
      ensures request.Some? ==>
                request.value == RegisterRequest(form[Username], form[Name], form[Birthday], form[PhoneNumber],
                                                 form[Address], form[Password], form[Gender],
                                                 ValidMedical(medical), ValidSkills(skills), [])
      ensures form == old(form) && skills == old(skills) && medical == old(medical)
    {
      var ok := ValidateForm();
      if !ok {
        return None;
      }
      request := Some(RegisterRequest(form[Username], form[Name], form[Birthday], form[PhoneNumber],
                                      form[Address], form[Password], form[Gender],
                                      ValidMedical(medical), ValidSkills(skills), []));
    }

    method AddSkillEntry()
      requires Valid()
      modifies this
      ensures Valid() && skills == AddSkill(old(skills))
      ensures form == old(form) && medical == old(medical) && errors == old(errors)
    {
      skills := AddSkill(skills);
    }

    method RemoveSkillEntry(index: int)
      requires Valid()
      modifies this
      ensures Valid() && skills == RemoveAt(old(skills), index)
      ensures form == old(form) && medical == old(medical) && errors == old(errors)
    {
      skills := RemoveAt(skills, index);
    }

    method UpdateSkillEntry(index: nat, field: SkillField, value: string)
      requires Valid() && index < |skills|
      modifies this
      ensures Valid() && skills == UpdateSkill(old(skills), index, field, value)
      ensures form == old(form) && medical == old(medical) && errors == old(errors)
    {
      skills := UpdateSkill(skills, index, field, value);
    }

    method AddMedicalEntry()
      requires Valid()
      modifies this
      ensures Valid() && medical == AddMedical(old(medical))
      ensures form == old(form) && skills == old(skills) && errors == old(errors)
    {
      medical := AddMedical(medical);
    }

    method RemoveMedicalEntry(index: int)
      requires Valid()
      modifies this
      ensures Valid() && medical == RemoveAt(old(medical), index)
      ensures form == old(form) && skills == old(skills) && errors == old(errors)
    {
      medical := RemoveAt(medical, index);
    }

    method UpdateMedicalEntry(index: nat, field: MedicalField, value: string)
      requires Valid() && index < |medical|
      modifies this
      ensures Valid() && medical == UpdateMedical(old(medical), index, field, value)
      ensures form == old(form) && skills == old(skills) && errors == old(errors)
    {
      medical := UpdateMedical(medical, index, field, value);
    }
  }
}
