/**
 * The three Yup schemas of src/validation/registerValidation.ts as explicit
 * predicates. A field declared with `.trim()` is validated on its trimmed
 * value (Yup applies the transform before the tests). Each schema yields
 * the error of every rule that fails, in the order the rules are declared;
 * a form is accepted when that list is empty.
 */
module Validation {
  import opened Text

  /** The field an error belongs to; `TagAt(i)` is the element `tags[i]`. */
  datatype Field = Name | Email | Password | ConfirmPassword | Title | Content | Image | Tags | TagAt(i: nat)

  datatype FieldError = FieldError(field: Field, message: string)

  datatype RegisterForm = RegisterForm(name: string, email: string, password: string, confirmPassword: string)
  datatype LoginForm = LoginForm(email: string, password: string)
  datatype BlogForm = BlogForm(title: string, content: string, image: string, tags: seq<string>)

  /** Some error of `errs` is about `field`: the field is shown as invalid. */
  predicate HasError(errs: seq<FieldError>, field: Field)
    decreases |errs|
  {
    errs != [] && (errs[0].field == field || HasError(errs[1..], field))
  }

  /** A field has an error in a concatenation exactly when it has one in
      either part. */
  lemma {:induction false} HasErrorAppend(a: seq<FieldError>, b: seq<FieldError>, field: Field)
    ensures HasError(a + b, field) <==> HasError(a, field) || HasError(b, field)
    decreases |a|
  {
    if a == [] {
      assert a + b == b;
    } else {
      assert (a + b)[0] == a[0];
      assert (a + b)[1..] == a[1..] + b;
      HasErrorAppend(a[1..], b, field);
    }
  }

  /** A list none of whose errors is about `field` gives it no error. */
  lemma {:induction false} NoErrorOn(errs: seq<FieldError>, field: Field)
    requires forall e :: e in errs ==> e.field != field
    ensures !HasError(errs, field)
    decreases |errs|
  {
    if errs != [] {
      assert errs[0] in errs;
      assert forall e :: e in errs[1..] ==> e in errs;
      NoErrorOn(errs[1..], field);
    }
  }

  // ---------------------------------------------------------------- password

  predicate IsLowerAscii(c: char) { 'a' <= c <= 'z' }
  predicate IsUpperAscii(c: char) { 'A' <= c <= 'Z' }
  predicate IsDigitAscii(c: char) { '0' <= c <= '9' }
  predicate IsSpecial(c: char) { c == '@' || c == '$' || c == '!' || c == '%' || c == '*' || c == '?' || c == '&' }

  /** The class `[A-Za-z\d@$!%*?&]`. */
  predicate IsAllowed(c: char) {
    IsLowerAscii(c) || IsUpperAscii(c) || IsDigitAscii(c) || IsSpecial(c)
  }

  /** What `.` does not match without the `s` flag. */
  predicate IsLineTerminator(c: char) {
    c == '\n' || c == '\r' || c == '\U{2028}' || c == '\U{2029}'
  }

  datatype CharClass = Lower | Upper | Digit | Special

  predicate InClass(c: char, k: CharClass) {
    match k
    case Lower => IsLowerAscii(c)
    case Upper => IsUpperAscii(c)
    case Digit => IsDigitAscii(c)
    case Special => IsSpecial(c)
  }

  /** The lookahead `(?=.*[k])` at the start of `s`: some character of class
      `k` is reached through characters that `.` matches. */
  predicate Lookahead(s: string, k: CharClass) {
    exists i :: 0 <= i < |s| && InClass(s[i], k) && forall j :: 0 <= j < i ==> !IsLineTerminator(s[j])
  }

  /** The regular expression
      `^(?=.*[a-z])(?=.*[A-Z])(?=.*\d)(?=.*[@$!%*?&])[A-Za-z\d@$!%*?&]{8,}$`,
      part by part: four lookaheads at the start, then the whole string drawn
      from the allowed class, at least eight times. */
  predicate MatchesPasswordPattern(s: string) {
    && Lookahead(s, Lower) && Lookahead(s, Upper) && Lookahead(s, Digit) && Lookahead(s, Special)
    && |s| >= 8 && forall i :: 0 <= i < |s| ==> IsAllowed(s[i])
  }

  predicate Contains(s: string, k: CharClass) {
    exists i :: 0 <= i < |s| && InClass(s[i], k)
  }

  /** The complexity rule stated directly: at least eight characters, all of
      them ASCII letters, digits or one of `@$!%*?&`, with at least one
      lower-case letter, one upper-case letter, one digit and one special. */
  predicate IsComplexPassword(s: string) {
    && |s| >= 8
    && (forall i :: 0 <= i < |s| ==> IsAllowed(s[i]))
    && Contains(s, Lower) && Contains(s, Upper) && Contains(s, Digit) && Contains(s, Special)
  }

  /** On an all-allowed string a lookahead is just "contains". */
  lemma LookaheadOnAllowed(s: string, k: CharClass)
    requires forall i :: 0 <= i < |s| ==> IsAllowed(s[i])
    ensures Lookahead(s, k) <==> Contains(s, k)
  {
    if Contains(s, k) {
      var i :| 0 <= i < |s| && InClass(s[i], k);
      assert forall j :: 0 <= j < i ==> IsAllowed(s[j]) && !IsLineTerminator(s[j]);
    }
  }

  /** The pattern accepts a string exactly when the complexity rule holds. */
  lemma PatternIffComplex(s: string)
    ensures MatchesPasswordPattern(s) <==> IsComplexPassword(s)
  {
    if forall i :: 0 <= i < |s| ==> IsAllowed(s[i]) {
      LookaheadOnAllowed(s, Lower);
      LookaheadOnAllowed(s, Upper);
      LookaheadOnAllowed(s, Digit);
      LookaheadOnAllowed(s, Special);
    }
  }

  const PatternMessage := "Password must contain at least one uppercase letter, one lowercase letter, one number, and one special character"
  const RegisterMinMessage := "Password must be at least 8 characters"
  const LoginMinMessage := "Password must be at least 6 characters"
  const PasswordRequired := "Password is required"

  /** `string().trim().min(minLength, minMessage).matches(pattern).required()`. */
  function PasswordErrors(password: string, minLength: nat, minMessage: string): (errs: seq<FieldError>)
    ensures forall e :: e in errs ==> e.field == Password
    ensures errs == [] <==> |Trim(password)| >= minLength && IsComplexPassword(Trim(password))
  {
    PatternIffComplex(Trim(password));
    PasswordRules(Trim(password), minLength, minMessage)
  }

  /** The three rules of the password field, on the already trimmed value. */
  function PasswordRules(t: string, minLength: nat, minMessage: string): seq<FieldError> {
    (if |t| < minLength then [FieldError(Password, minMessage)] else [])
    + (if !MatchesPasswordPattern(t) then [FieldError(Password, PatternMessage)] else [])
    + (if t == [] then [FieldError(Password, PasswordRequired)] else [])
  }

  /** A password passes when its trimmed value satisfies the complexity rule,
      whichever minimum up to 8 is declared; so the login schema's `min(6)`
      never decides anything. */
  lemma PasswordAccepted(password: string, minLength: nat, minMessage: string)
    requires minLength <= 8
    ensures PasswordErrors(password, minLength, minMessage) == [] <==> IsComplexPassword(Trim(password))
  {
    PatternIffComplex(Trim(password));
  }

  /** Surrounding white space never counts: the errors of a password are
      those of its trimmed value. */
  lemma PasswordTrimmedFirst(password: string, minLength: nat, minMessage: string)
    ensures PasswordErrors(password, minLength, minMessage) == PasswordErrors(Trim(password), minLength, minMessage)
  {
    TrimIdempotent(password);
  }

  // ---------------------------------------------------------------- other fields

  /** `string().trim().required(message)`: fails on a blank value. */
  function RequiredTrimmed(field: Field, value: string, message: string): (errs: seq<FieldError>)
    ensures errs == [] <==> !IsBlank(value)
    ensures forall e :: e in errs ==> e.field == field
  {
    TrimEmptyIffBlank(value);
    if Trim(value) == [] then [FieldError(field, message)] else []
  }

  function NameErrors(name: string): (errs: seq<FieldError>)
    ensures forall e :: e in errs ==> e.field == Name
    ensures errs == [] <==> !IsBlank(name)
  {
    RequiredTrimmed(Name, name, "Name is required")
  }

  /** `string().trim().email(...).required(...)`; the e-mail shape is Yup's own
      regular expression, given as `isEmail`. `email()` passes an empty value,
      which fails `required` alone. */
  function EmailErrors(email: string, isEmail: string -> bool): (errs: seq<FieldError>)
    ensures forall e :: e in errs ==> e.field == Email
    ensures errs == [] <==> EmailAccepted(email, isEmail)
  {
    var t := Trim(email);
    (if t != [] && !isEmail(t) then [FieldError(Email, "Invalid email address")] else [])
    + (if t == [] then [FieldError(Email, "Email is required")] else [])
  }

  /** `string().oneOf([ref('password'), undefined]).required()`. The reference
      resolves against the validated parent object, whose `password` is the
      trimmed one; `confirmPassword` itself is not trimmed. */
  function ConfirmErrors(confirm: string, password: string): (errs: seq<FieldError>)
    ensures forall e :: e in errs ==> e.field == ConfirmPassword
    ensures errs == [] <==> confirm == Trim(password) && !IsBlank(password)
  {
    TrimEmptyIffBlank(password);
    (if confirm != Trim(password) then [FieldError(ConfirmPassword, "Passwords must match")] else [])
    + (if confirm == [] then [FieldError(ConfirmPassword, "Confirm password is required")] else [])
  }

  predicate EmailAccepted(email: string, isEmail: string -> bool) {
    Trim(email) != [] && isEmail(Trim(email))
  }

  /** A field's part of a form's errors is empty exactly when it names
      no error of that field. */
  lemma FieldPart(part: seq<FieldError>, field: Field)
    requires forall e :: e in part ==> e.field == field
    ensures HasError(part, field) <==> part != []
    ensures forall g :: g != field ==> !HasError(part, g)
  {
    if part != [] {
      assert part[0] in part;
    }
    forall g | g != field ensures !HasError(part, g) {
      NoErrorOn(part, g);
    }
  }

  /** The registration schema: each of its four fields is shown as invalid
      exactly when its own rule fails, and no other field is. */
  function RegisterErrors(f: RegisterForm, isEmail: string -> bool): (errs: seq<FieldError>)
    ensures HasError(errs, Name) <==> IsBlank(f.name)
    ensures HasError(errs, Email) <==> !EmailAccepted(f.email, isEmail)
    ensures HasError(errs, Password) <==> !IsComplexPassword(Trim(f.password))
    ensures HasError(errs, ConfirmPassword) <==> f.confirmPassword != Trim(f.password) || IsBlank(f.password)
    ensures forall e :: e in errs ==> e.field in {Name, Email, Password, ConfirmPassword}
  {
    var n := NameErrors(f.name);
    var m := EmailErrors(f.email, isEmail);
    var p := PasswordErrors(f.password, 8, RegisterMinMessage);
    var c := ConfirmErrors(f.confirmPassword, f.password);
    RegisterParts(n, m, p, c);
    n + m + p + c
  }

  lemma RegisterParts(n: seq<FieldError>, m: seq<FieldError>, p: seq<FieldError>, c: seq<FieldError>)
    requires forall e :: e in n ==> e.field == Name
    requires forall e :: e in m ==> e.field == Email
    requires forall e :: e in p ==> e.field == Password
    requires forall e :: e in c ==> e.field == ConfirmPassword
    ensures HasError(n + m + p + c, Name) <==> n != []
    ensures HasError(n + m + p + c, Email) <==> m != []
    ensures HasError(n + m + p + c, Password) <==> p != []
    ensures HasError(n + m + p + c, ConfirmPassword) <==> c != []
    ensures forall e :: e in n + m + p + c ==> e.field in {Name, Email, Password, ConfirmPassword}
  {
    FieldPart(n, Name);
    FieldPart(m, Email);
    FieldPart(p, Password);
    FieldPart(c, ConfirmPassword);
    forall g ensures HasError(n + m + p + c, g) <==> HasError(n, g) || HasError(m, g) || HasError(p, g) || HasError(c, g) {
      HasErrorAppend(n, m, g);
      HasErrorAppend(n + m, p, g);
      HasErrorAppend(n + m + p, c, g);
    }
  }

  /** The login schema: the e-mail and the password are each shown as
      invalid exactly when their own rule fails, and no other field is. */
  function LoginErrors(f: LoginForm, isEmail: string -> bool): (errs: seq<FieldError>)
    ensures HasError(errs, Email) <==> !EmailAccepted(f.email, isEmail)
    ensures HasError(errs, Password) <==> !IsComplexPassword(Trim(f.password))
    ensures forall e :: e in errs ==> e.field in {Email, Password}
  {
    var m := EmailErrors(f.email, isEmail);
    var p := PasswordErrors(f.password, 6, LoginMinMessage);
    FieldPart(m, Email);
    FieldPart(p, Password);
    HasErrorAppend(m, p, Email);
    HasErrorAppend(m, p, Password);
    m + p
  }

  /** The registration form is accepted exactly when the name is not blank,
      the trimmed e-mail has the e-mail shape, the trimmed password satisfies
      the complexity rule, and the confirmation equals the trimmed password. */
  lemma RegisterAccepted(f: RegisterForm, isEmail: string -> bool)
    ensures RegisterErrors(f, isEmail) == [] <==>
              && !IsBlank(f.name)
              && EmailAccepted(f.email, isEmail)
              && IsComplexPassword(Trim(f.password))
              && f.confirmPassword == Trim(f.password)
  {
    PasswordAccepted(f.password, 8, RegisterMinMessage);
  }

  /** The login schema accepts exactly the e-mails and passwords that the
      registration schema accepts. */
  lemma LoginAcceptsSamePasswords(email: string, password: string, isEmail: string -> bool)
    ensures LoginErrors(LoginForm(email, password), isEmail) == [] <==>
              EmailAccepted(email, isEmail) && IsComplexPassword(Trim(password))
    ensures PasswordErrors(password, 6, LoginMinMessage) == [] <==>
              PasswordErrors(password, 8, RegisterMinMessage) == []
  {
    PasswordAccepted(password, 6, LoginMinMessage);
    PasswordAccepted(password, 8, RegisterMinMessage);
  }

  // ---------------------------------------------------------------- blog form

  /** The custom test 'no-leading-trailing-spaces': passes an empty value,
      otherwise demands that trimming changes nothing. */
  predicate NoOuterSpaces(value: string) {
    value == [] || Trim(value) == value
  }

  /** Since the test sees the already trimmed value, it can never fail. */
  lemma NoOuterSpacesOnTrimmed(value: string)
    ensures NoOuterSpaces(Trim(value))
  {
    TrimIdempotent(value);
  }

  /** `string().trim().required(message).test(no-leading-trailing-spaces)`. */
  function TrimmedNoOuterSpaces(field: Field, value: string, requiredMessage: string, testMessage: string): seq<FieldError> {
    var t := Trim(value);
    (if t == [] then [FieldError(field, requiredMessage)] else [])
    + (if !NoOuterSpaces(t) then [FieldError(field, testMessage)] else [])
  }

  /** The decimal digits of `n`, as in the path `tags[3]`. */
  function Decimal(n: nat): string
    decreases n
  {
    if n < 10 then [('0' as int + n) as char] else Decimal(n / 10) + [('0' as int + n % 10) as char]
  }

  /** Yup's default message for a missing `tags[i]`. */
  function TagRequiredMessage(i: nat): string {
    "tags[" + Decimal(i) + "] is a required field"
  }

  /** The elements of `tags` from index `from` on; `.required()` without a
      message reports Yup's default "<path> is a required field". */
  function TagElementErrors(tags: seq<string>, from: nat): (errs: seq<FieldError>)
    requires from <= |tags|
    ensures forall e :: e in errs ==> e.field.TagAt? && from <= e.field.i < |tags|
    ensures forall i: nat :: HasError(errs, TagAt(i)) <==> from <= i < |tags| && !Filled(tags[i])
    decreases |tags| - from
  {
    if from == |tags| then []
    else
      var head := TrimmedNoOuterSpaces(TagAt(from), tags[from], TagRequiredMessage(from),
                                       "Tags cannot have leading or trailing spaces");
      TrimmedNoOuterSpacesErrors(TagAt(from), tags[from], TagRequiredMessage(from),
                                 "Tags cannot have leading or trailing spaces");
      var rest := TagElementErrors(tags, from + 1);
      TagElementStep(tags, from, head, rest);
      head + rest
  }

  /** One element's errors in front of the errors of the elements after it. */
  lemma TagElementStep(tags: seq<string>, from: nat, head: seq<FieldError>, rest: seq<FieldError>)
    requires from < |tags|
    requires forall e :: e in head ==> e.field == TagAt(from)
    requires head == [] <==> Filled(tags[from])
    requires forall e :: e in rest ==> e.field.TagAt? && from + 1 <= e.field.i < |tags|
    requires forall i: nat :: HasError(rest, TagAt(i)) <==> from + 1 <= i < |tags| && !Filled(tags[i])
    ensures forall e :: e in head + rest ==> e.field.TagAt? && from <= e.field.i < |tags|
    ensures forall i: nat :: HasError(head + rest, TagAt(i)) <==> from <= i < |tags| && !Filled(tags[i])
  {
    FieldPart(head, TagAt(from));
    forall i: nat ensures HasError(head + rest, TagAt(i)) <==> from <= i < |tags| && !Filled(tags[i]) {
      HasErrorAppend(head, rest, TagAt(i));
    }
  }

  /** `array().min(1).max(5).of(string().trim().required().test(...))`. */
  function TagsErrors(tags: seq<string>): (errs: seq<FieldError>)
    ensures HasError(errs, Tags) <==> !(1 <= |tags| <= 5)
    ensures forall i: nat :: HasError(errs, TagAt(i)) <==> i < |tags| && !Filled(tags[i])
    ensures forall e :: e in errs ==> IsTagsField(e.field, |tags|)
  {
    var count := (if |tags| < 1 then [FieldError(Tags, "At least one tag is required")] else [])
                 + (if |tags| > 5 then [FieldError(Tags, "Maximum 5 tags allowed")] else []);
    var elements := TagElementErrors(tags, 0);
    TagsParts(tags, count, elements);
    count + elements
  }

  /** The fields of the `tags` array of `n` elements: the array itself and
      each `tags[i]`. */
  predicate IsTagsField(field: Field, n: nat) {
    field.Tags? || (field.TagAt? && field.i < n)
  }

  lemma TagsParts(tags: seq<string>, count: seq<FieldError>, elements: seq<FieldError>)
    requires forall e :: e in count ==> e.field == Tags
    requires count == [] <==> 1 <= |tags| <= 5
    requires forall e :: e in elements ==> e.field.TagAt? && 0 <= e.field.i < |tags|
    requires forall i: nat :: HasError(elements, TagAt(i)) <==> 0 <= i < |tags| && !Filled(tags[i])
    ensures HasError(count + elements, Tags) <==> !(1 <= |tags| <= 5)
    ensures forall i: nat :: HasError(count + elements, TagAt(i)) <==> i < |tags| && !Filled(tags[i])
    ensures forall e :: e in count + elements ==> IsTagsField(e.field, |tags|)
  {
    FieldPart(count, Tags);
    HasErrorAppend(count, elements, Tags);
    NoErrorOn(elements, Tags);
    forall i: nat ensures HasError(count + elements, TagAt(i)) <==> i < |tags| && !Filled(tags[i]) {
      HasErrorAppend(count, elements, TagAt(i));
    }
  }

  /** The fields of a blog form with `n` tags. */
  predicate IsBlogField(field: Field, n: nat) {
    field.Title? || field.Content? || field.Image? || IsTagsField(field, n)
  }

  /** The blog schema: the title, the content, the cover, the tag array and
      each tag are shown as invalid exactly when their own rule fails, and
      no other field is. */
  function BlogFormErrors(f: BlogForm): (errs: seq<FieldError>)
    ensures HasError(errs, Title) <==> !Filled(f.title)
    ensures HasError(errs, Content) <==> !Filled(f.content)
    ensures HasError(errs, Image) <==> f.image == []
    ensures HasError(errs, Tags) <==> !(1 <= |f.tags| <= 5)
    ensures forall i: nat :: HasError(errs, TagAt(i)) <==> i < |f.tags| && !Filled(f.tags[i])
    ensures forall e :: e in errs ==> IsBlogField(e.field, |f.tags|)
  {
    BlogRulesFields(f);
    BlogRulesTagsField(f);
    BlogRulesTagFields(f);
    BlogFormRules(f)
  }

  /** The rules of the blog schema, in the order they are declared. */
  function BlogFormRules(f: BlogForm): seq<FieldError> {
    TitleErrors(f.title) + ContentErrors(f.content) + ImageErrors(f.image) + TagsErrors(f.tags)
  }

  function TitleErrors(title: string): (errs: seq<FieldError>)
    ensures forall e :: e in errs ==> e.field == Title
    ensures errs == [] <==> Filled(title)
  {
    TrimmedNoOuterSpacesErrors(Title, title, "Title is required", "Title cannot have leading or trailing spaces");
    TrimmedNoOuterSpaces(Title, title, "Title is required", "Title cannot have leading or trailing spaces")
  }

  function ContentErrors(content: string): (errs: seq<FieldError>)
    ensures forall e :: e in errs ==> e.field == Content
    ensures errs == [] <==> Filled(content)
  {
    FilledIffNotBlank(content);
    RequiredTrimmed(Content, content, "Blog content is required")
  }

  /** `image` is a plain `string().required()`: it is not trimmed. */
  function ImageErrors(image: string): (errs: seq<FieldError>)
    ensures forall e :: e in errs ==> e.field == Image
    ensures errs == [] <==> image != []
  {
    if image == [] then [FieldError(Image, "Cover image is required")] else []
  }

  lemma BlogRulesFields(f: BlogForm)
    ensures HasError(BlogFormRules(f), Title) <==> !Filled(f.title)
    ensures HasError(BlogFormRules(f), Content) <==> !Filled(f.content)
    ensures HasError(BlogFormRules(f), Image) <==> f.image == []
    ensures forall e :: e in BlogFormRules(f) ==> IsBlogField(e.field, |f.tags|)
  {
    BlogParts(TitleErrors(f.title), ContentErrors(f.content), ImageErrors(f.image), TagsErrors(f.tags), |f.tags|);
  }

  lemma BlogRulesTagsField(f: BlogForm)
    ensures HasError(BlogFormRules(f), Tags) <==> !(1 <= |f.tags| <= 5)
  {
    BlogParts(TitleErrors(f.title), ContentErrors(f.content), ImageErrors(f.image), TagsErrors(f.tags), |f.tags|);
  }

  lemma BlogRulesTagFields(f: BlogForm)
    ensures forall i: nat :: HasError(BlogFormRules(f), TagAt(i)) <==> i < |f.tags| && !Filled(f.tags[i])
  {
    BlogParts(TitleErrors(f.title), ContentErrors(f.content), ImageErrors(f.image), TagsErrors(f.tags), |f.tags|);
  }

  lemma BlogParts(a: seq<FieldError>, b: seq<FieldError>, c: seq<FieldError>, d: seq<FieldError>, n: nat)
    requires forall e :: e in a ==> e.field == Title
    requires forall e :: e in b ==> e.field == Content
    requires forall e :: e in c ==> e.field == Image
    requires forall e :: e in d ==> IsTagsField(e.field, n)
    ensures HasError(a + b + c + d, Title) <==> a != []
    ensures HasError(a + b + c + d, Content) <==> b != []
    ensures HasError(a + b + c + d, Image) <==> c != []
    ensures forall g :: g != Title && g != Content && g != Image ==> (HasError(a + b + c + d, g) <==> HasError(d, g))
    ensures forall e :: e in a + b + c + d ==> IsBlogField(e.field, n)
  {
    FieldPart(a, Title);
    FieldPart(b, Content);
    FieldPart(c, Image);
    var front := a + b + c;
    forall g ensures HasError(front, g) <==> HasError(a, g) || HasError(b, g) || HasError(c, g) {
      HasErrorAppend(a, b, g);
      HasErrorAppend(a + b, c, g);
    }
    forall g ensures HasError(front + d, g) <==> HasError(front, g) || HasError(d, g) {
      HasErrorAppend(front, d, g);
    }
    NoErrorOn(d, Title);
    NoErrorOn(d, Content);
    NoErrorOn(d, Image);
  }

  /** A value that `required()` accepts once trimmed. */
  predicate Filled(value: string) {
    Trim(value) != []
  }

  /** A trimmed-and-tested field fails exactly when it is blank; the space
      test never contributes. */
  lemma TrimmedNoOuterSpacesErrors(field: Field, value: string, rm: string, tm: string)
    ensures TrimmedNoOuterSpaces(field, value, rm, tm) == (if Filled(value) then [] else [FieldError(field, rm)])
  {
    NoOuterSpacesOnTrimmed(value);
  }

  /** The tag elements from `from` on pass exactly when none of them is blank. */
  lemma {:induction false} TagElementsAccepted(tags: seq<string>, from: nat)
    requires from <= |tags|
    ensures TagElementErrors(tags, from) == [] <==> forall i :: from <= i < |tags| ==> Filled(tags[i])
    decreases |tags| - from
  {
    if from < |tags| {
      var rm := TagRequiredMessage(from);
      var tm := "Tags cannot have leading or trailing spaces";
      var head := TrimmedNoOuterSpaces(TagAt(from), tags[from], rm, tm);
      var rest := TagElementErrors(tags, from + 1);
      assert TagElementErrors(tags, from) == head + rest;
      TrimmedNoOuterSpacesErrors(TagAt(from), tags[from], rm, tm);
      assert head == [] <==> Filled(tags[from]);
      TagElementsAccepted(tags, from + 1);
      assert head + rest == [] <==> head == [] && rest == [] by {
        assert |head + rest| == |head| + |rest|;
      }
      assert (forall i :: from <= i < |tags| ==> Filled(tags[i])) <==>
             Filled(tags[from]) && (forall i :: from + 1 <= i < |tags| ==> Filled(tags[i]));
    }
  }

  /** `Filled` is "not blank". */
  lemma FilledIffNotBlank(value: string)
    ensures Filled(value) <==> !IsBlank(value)
  {
    TrimEmptyIffBlank(value);
  }

  /** The tag list passes exactly when it holds one to five tags, none of
      them blank. */
  lemma TagsAccepted(tags: seq<string>)
    ensures TagsErrors(tags) == [] <==> 1 <= |tags| <= 5 && forall i :: 0 <= i < |tags| ==> Filled(tags[i])
  {
    TagElementsAccepted(tags, 0);
  }

  /** What the blog schema demands, stated directly: title and content not
      blank, a cover image named, one to five tags, none of them blank. */
  predicate BlogFormReady(f: BlogForm) {
    && Filled(f.title)
    && Filled(f.content)
    && f.image != []
    && 1 <= |f.tags| <= 5
    && forall i :: 0 <= i < |f.tags| ==> Filled(f.tags[i])
  }

  /** The blog form is accepted exactly when the title and the content are
      not blank, a cover image is named, and there are one to five tags, none
      of them blank. Padding around a title or tag is never an error. */
  lemma BlogFormAccepted(f: BlogForm)
    ensures BlogFormErrors(f) == [] <==> BlogFormReady(f)
  {
    var errs := BlogFormErrors(f);
    if errs == [] {
      forall i | 0 <= i < |f.tags| ensures Filled(f.tags[i]) {
        assert !HasError(errs, TagAt(i));
      }
    } else {
      assert errs[0] in errs;
      assert HasError(errs, errs[0].field);
    }
  }
}
