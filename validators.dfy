/** The two input shapes that are checked before they reach the stores: a
    new book, with its data annotations and its FluentValidation rule set,
    and a registration, with its rule set. Every rule of a rule set runs,
    whatever the others say, and each failing rule adds its own message in
    rule order. */
module Validation {
  import opened Common

  /** `CreateBookDto`, with its property initialisers as defaults. */
  datatype CreateBookDto = CreateBookDto(
    Title: string,
    Author: string,
    Genre: string,
    Rating: Int32,
    CoverUrl: string,
    CoverColor: string,
    Description: string,
    TotalCopies: Int32,
    VideoUrl: string,
    DescriptionP: string)

  /** A DTO as the binder creates it before reading the body. */
  const EmptyCreateBookDto := CreateBookDto("", "", "", 0, "", "", "", 1, "", "")

  /** The rules of `rules` that fail, in rule order: what a rule set
      reports when every rule runs whatever the others say. */
  function FailedRules<R(==,!new)>(rules: seq<R>, fails: R -> bool): (r: seq<R>)
    ensures forall x :: x in r <==> x in rules && fails(x)
    ensures IsSubsequence(r, rules)
  {
    if rules == [] then []
    else
      var rest := FailedRules(rules[1..], fails);
      if fails(rules[0]) then
        assert ([rules[0]] + rest)[1..] == rest;
        [rules[0]] + rest
      else
        rest
  }

  /** The messages of a list of failures, in the same order. */
  function Messages<E>(errors: seq<E>, message: E -> string): (ms: seq<string>)
    ensures |ms| == |errors| && forall i :: 0 <= i < |errors| ==> ms[i] == message(errors[i])
  {
    if errors == [] then [] else [message(errors[0])] + Messages(errors[1..], message)
  }

  // ---------------------------------------------------------------------
  // Data annotations

  /** `[Required]` on a string: present and not blank (empty strings are
      not allowed by default). */
  predicate Required(s: string) {
    !IsBlank(s)
  }

  /** `[MaxLength(n)]` */
  predicate MaxLength(s: string, n: nat) {
    |s| <= n
  }

  /** `[Range(lo, hi)]` on an `int`, both ends included. */
  predicate InRange(x: int, lo: int, hi: int) {
    lo <= x <= hi
  }

  /** The annotated members of `CreateBookDto`. */
  datatype Member =
    | TitleField | AuthorField | GenreField | RatingField | CoverUrlField
    | CoverColorField | DescriptionField | TotalCopiesField | VideoUrlField
    | DescriptionPField

  /** The members in declaration order. */
  const AnnotatedMembers: seq<Member> := [
    TitleField, AuthorField, GenreField, RatingField, CoverUrlField,
    CoverColorField, DescriptionField, TotalCopiesField, VideoUrlField,
    DescriptionPField]

  /** The member name a model-state error is keyed by. */
  function Name(m: Member): string {
    match m
    case TitleField => "Title"
    case AuthorField => "Author"
    case GenreField => "Genre"
    case RatingField => "Rating"
    case CoverUrlField => "CoverUrl"
    case CoverColorField => "CoverColor"
    case DescriptionField => "Description"
    case TotalCopiesField => "TotalCopies"
    case VideoUrlField => "VideoUrl"
    case DescriptionPField => "DescriptionP"
  }

  /** The annotations on member `m` reject `dto`. */
  predicate Rejects(dto: CreateBookDto, m: Member) {
    match m
    case TitleField => !(Required(dto.Title) && MaxLength(dto.Title, 255))
    case AuthorField => !(Required(dto.Author) && MaxLength(dto.Author, 255))
    case GenreField => !Required(dto.Genre)
    case RatingField => !InRange(dto.Rating, 1, 5)
    case CoverUrlField => !Required(dto.CoverUrl)
    case CoverColorField => !(Required(dto.CoverColor) && MaxLength(dto.CoverColor, 7))
    case DescriptionField => !Required(dto.Description)
    case TotalCopiesField => !InRange(dto.TotalCopies, 1, 1000)
    case VideoUrlField => !Required(dto.VideoUrl)
    case DescriptionPField => !Required(dto.DescriptionP)
  }

  /** The members whose annotations reject `dto`, which become the keys
      of the model-state errors: exactly those. */
  function AnnotationFailures(dto: CreateBookDto): (r: set<Member>)
    ensures forall m :: m in r <==> Rejects(dto, m)
  {
    var r := set m | m in AnnotatedMembers && Rejects(dto, m);
    forall m ensures m in r <==> Rejects(dto, m) {
      MemberListed(m);
    }
    r
  }

  /** The model-state keys of a DTO the annotations reject: the name of
      each rejected member, and nothing else. */
  function AnnotationErrorKeys(dto: CreateBookDto): (keys: set<string>)
    ensures forall m :: Name(m) in keys <==> Rejects(dto, m)
    ensures keys == {} <==> AnnotationFailures(dto) == {}
  {
    var keys := set m | m in AnnotationFailures(dto) :: Name(m);
    forall m ensures Name(m) in keys <==> Rejects(dto, m) {
      if Name(m) in keys {
        var m' :| m' in AnnotationFailures(dto) && Name(m') == Name(m);
        NameInjective(m, m');
      }
    }
    keys
  }

  /** Different members have different names. */
  lemma NameInjective(m: Member, m': Member)
    requires Name(m) == Name(m')
    ensures m == m'
  {
  }

  lemma MemberListed(m: Member)
    ensures m in AnnotatedMembers
  {
    var i := match m
      case TitleField => 0 case AuthorField => 1 case GenreField => 2
      case RatingField => 3 case CoverUrlField => 4 case CoverColorField => 5
      case DescriptionField => 6 case TotalCopiesField => 7 case VideoUrlField => 8
      case DescriptionPField => 9;
    assert AnnotatedMembers[i] == m;
  }

  /** A DTO the annotations accept. */
  predicate AnnotationsHold(dto: CreateBookDto) {
    AnnotationFailures(dto) == {}
  }

  /** Accepted by the annotations exactly when no member's annotations
      reject the DTO; the copy count then lies in 1..1000 and the rating in
      1..5. */
  lemma AnnotationsHoldIff(dto: CreateBookDto)
    ensures AnnotationsHold(dto) <==> forall m :: !Rejects(dto, m)
    ensures AnnotationsHold(dto) ==> 1 <= dto.TotalCopies <= 1000 && 1 <= dto.Rating <= 5
  {
    var r := AnnotationFailures(dto);
    if r != {} {
      var m :| m in r;
      assert Rejects(dto, m);
    } else {
      assert !Rejects(dto, TotalCopiesField) && !Rejects(dto, RatingField);
    }
  }

  /** The default DTO is rejected on its blank title, but not on its copy
      count, which defaults to 1. */
  lemma EmptyDtoRejected()
    ensures TitleField in AnnotationFailures(EmptyCreateBookDto)
    ensures TotalCopiesField !in AnnotationFailures(EmptyCreateBookDto)
    ensures !AnnotationsHold(EmptyCreateBookDto)
  {
    assert Rejects(EmptyCreateBookDto, TitleField);
  }

  // ---------------------------------------------------------------------
  // CreateBookDtoValidator

  /** FluentValidation's `NotEmpty()` on a string: not null, not empty and
      not only white space. */
  predicate NotEmpty(s: string) {
    !IsBlank(s)
  }

  /** The failures `CreateBookDtoValidator` can report. */
  datatype BookError =
    | TitleRequired | TitleTooLong | AuthorRequired | GenreRequired
    | RatingOutOfRange | CopiesNotPositive

  /** The rules in the order the validator declares them. */
  const BookRules: seq<BookError> := [
    TitleRequired, TitleTooLong, AuthorRequired, GenreRequired,
    RatingOutOfRange, CopiesNotPositive]

  /** The message each failure carries. */
  function BookMessage(e: BookError): string {
    match e
    case TitleRequired => "Title is required"
    case TitleTooLong => "Title cannot exceed 100 characters"
    case AuthorRequired => "Author is required"
    case GenreRequired => "Genre is required"
    case RatingOutOfRange => "Rating must be between 1 and 5"
    case CopiesNotPositive => "Total copies must be greater than 0"
  }

  /** The rule behind failure `e` does not accept `dto`. */
  predicate BookRuleFails(dto: CreateBookDto, e: BookError) {
    match e
    case TitleRequired => !NotEmpty(dto.Title)
    case TitleTooLong => |dto.Title| > 100
    case AuthorRequired => !NotEmpty(dto.Author)
    case GenreRequired => !NotEmpty(dto.Genre)
    case RatingOutOfRange => !(1 <= dto.Rating <= 5)
    case CopiesNotPositive => dto.TotalCopies <= 0
  }

  /** The failures `CreateBookDtoValidator` reports for `dto`: exactly the
      rules that fail, each once, in rule order. */
  function CreateBookErrors(dto: CreateBookDto): (errors: seq<BookError>)
    ensures forall e :: e in errors <==> BookRuleFails(dto, e)
    ensures IsSubsequence(errors, BookRules)
  {
    var r := FailedRules(BookRules, e => BookRuleFails(dto, e));
    forall e ensures e in r <==> BookRuleFails(dto, e) {
      BookRuleListed(e);
    }
    r
  }

  /** The messages `CreateBookDtoValidator` returns for `dto`, in rule
      order: the message of a rule appears exactly when that rule fails,
      and there are none exactly when the DTO is valid. */
  function CreateBookMessages(dto: CreateBookDto): (ms: seq<string>)
    ensures |ms| == |CreateBookErrors(dto)|
    ensures forall e :: BookMessage(e) in ms <==> BookRuleFails(dto, e)
  {
    var errors := CreateBookErrors(dto);
    var ms := Messages(errors, BookMessage);
    forall e ensures BookMessage(e) in ms <==> BookRuleFails(dto, e) {
      if BookMessage(e) in ms {
        var i :| 0 <= i < |ms| && ms[i] == BookMessage(e);
        BookMessageInjective(e, errors[i]);
      }
      if BookRuleFails(dto, e) {
        var i :| 0 <= i < |errors| && errors[i] == e;
        assert ms[i] == BookMessage(e);
      }
    }
    ms
  }

  /** Different failures carry different messages. */
  lemma BookMessageInjective(e: BookError, e': BookError)
    requires BookMessage(e) == BookMessage(e')
    ensures e == e'
  {
  }

  lemma BookRuleListed(e: BookError)
    ensures e in BookRules
  {
    var i := match e
      case TitleRequired => 0 case TitleTooLong => 1 case AuthorRequired => 2
      case GenreRequired => 3 case RatingOutOfRange => 4 case CopiesNotPositive => 5;
    assert BookRules[i] == e;
  }

  /** The validator's verdict: valid when it reports nothing. */
  predicate CreateBookValid(dto: CreateBookDto) {
    CreateBookErrors(dto) == []
  }

  /** Valid exactly when all five rules hold. */
  lemma CreateBookValidIff(dto: CreateBookDto)
    ensures CreateBookValid(dto) <==>
              && NotEmpty(dto.Title) && |dto.Title| <= 100
              && NotEmpty(dto.Author) && NotEmpty(dto.Genre)
              && 1 <= dto.Rating <= 5 && dto.TotalCopies > 0
  {
    var e := CreateBookErrors(dto);
    if e != [] {
      assert BookRuleFails(dto, e[0]);
    } else {
      assert !BookRuleFails(dto, TitleRequired) && !BookRuleFails(dto, TitleTooLong);
      assert !BookRuleFails(dto, AuthorRequired) && !BookRuleFails(dto, GenreRequired);
      assert !BookRuleFails(dto, RatingOutOfRange) && !BookRuleFails(dto, CopiesNotPositive);
    }
  }

  /** The rule set is stricter than the annotations on the title: 100
      characters against 255. A title of 101 to 255 characters passes the
      annotations but not the validator. */
  lemma TitleLimitsDiffer(dto: CreateBookDto)
    requires forall m :: m != TitleField ==> !Rejects(dto, m)
    requires Required(dto.Title) && 100 < |dto.Title| <= 255
    ensures AnnotationsHold(dto) && !CreateBookValid(dto)
  {
    AnnotationsHoldIff(dto);
    assert BookRuleFails(dto, TitleTooLong);
  }

  /** The rule set is looser than the annotations elsewhere: a DTO with
      more than 1000 copies passes the validator when its five rules hold,
      but not the annotations. */
  lemma ValidatorIgnoresCopyLimit(dto: CreateBookDto)
    requires NotEmpty(dto.Title) && |dto.Title| <= 100
    requires NotEmpty(dto.Author) && NotEmpty(dto.Genre) && 1 <= dto.Rating <= 5
    requires dto.TotalCopies > 1000
    ensures CreateBookValid(dto) && !AnnotationsHold(dto)
  {
    CreateBookValidIff(dto);
    assert Rejects(dto, TotalCopiesField);
  }

  /** Passing both the annotations and the validator bounds the title by
      the stricter limit and the copy count by the annotation's range. */
  lemma BothAccept(dto: CreateBookDto)
    requires AnnotationsHold(dto) && CreateBookValid(dto)
    ensures 1 <= |dto.Title| <= 100
    ensures 1 <= dto.TotalCopies <= 1000 && 1 <= dto.Rating <= 5
  {
    AnnotationsHoldIff(dto);
    CreateBookValidIff(dto);
  }

  // ---------------------------------------------------------------------
  // RegisterDtoValidator

  /** `RegisterDto` */
  datatype RegisterDto = RegisterDto(
    Email: string,
    Password: string,
    FullName: string,
    UniversityCard: string,
    UniversityId: Int32)

  /** The failures `RegisterDtoValidator` can report. */
  datatype RegisterError =
    | EmailRequired | EmailMalformed | PasswordRequired | PasswordTooShort
    | FullNameRequired | CardRequired | UniversityIdInvalid

  /** The rules in the order the validator declares them. */
  const RegisterRules: seq<RegisterError> := [
    EmailRequired, EmailMalformed, PasswordRequired, PasswordTooShort,
    FullNameRequired, CardRequired, UniversityIdInvalid]

  /** The message each failure carries. */
  function RegisterMessage(e: RegisterError): string {
    match e
    case EmailRequired => "Email is required"
    case EmailMalformed => "Invalid email format"
    case PasswordRequired => "Password is required"
    case PasswordTooShort => "Password must be at least 6 characters"
    case FullNameRequired => "Full Name is required"
    case CardRequired => "University Card is required"
    case UniversityIdInvalid => "University ID must be valid"
  }

  /** The rule behind failure `e` does not accept `dto`. `isEmail` is the
      validation library's e-mail address check, which is not part of this
      model. */
  predicate RegisterRuleFails(dto: RegisterDto, isEmail: string -> bool, e: RegisterError) {
    match e
    case EmailRequired => !NotEmpty(dto.Email)
    case EmailMalformed => !isEmail(dto.Email)
    case PasswordRequired => !NotEmpty(dto.Password)
    case PasswordTooShort => |dto.Password| < 6
    case FullNameRequired => !NotEmpty(dto.FullName)
    case CardRequired => !NotEmpty(dto.UniversityCard)
    case UniversityIdInvalid => dto.UniversityId <= 0
  }

  /** The failures `RegisterDtoValidator` reports for `dto`: exactly the
      rules that fail, each once, in rule order. */
  function RegisterErrors(dto: RegisterDto, isEmail: string -> bool): (errors: seq<RegisterError>)
    ensures forall e :: e in errors <==> RegisterRuleFails(dto, isEmail, e)
    ensures IsSubsequence(errors, RegisterRules)
  {
    var r := FailedRules(RegisterRules, e => RegisterRuleFails(dto, isEmail, e));
    forall e ensures e in r <==> RegisterRuleFails(dto, isEmail, e) {
      RegisterRuleListed(e);
    }
    r
  }

  /** The messages `RegisterDtoValidator` returns for `dto`, in rule
      order: the message of a rule appears exactly when that rule fails. */
  function RegisterMessages(dto: RegisterDto, isEmail: string -> bool): (ms: seq<string>)
    ensures |ms| == |RegisterErrors(dto, isEmail)|
    ensures forall e :: RegisterMessage(e) in ms <==> RegisterRuleFails(dto, isEmail, e)
  {
    var errors := RegisterErrors(dto, isEmail);
    var ms := Messages(errors, RegisterMessage);
    forall e ensures RegisterMessage(e) in ms <==> RegisterRuleFails(dto, isEmail, e) {
      if RegisterMessage(e) in ms {
        var i :| 0 <= i < |ms| && ms[i] == RegisterMessage(e);
        RegisterMessageInjective(e, errors[i]);
      }
      if RegisterRuleFails(dto, isEmail, e) {
        var i :| 0 <= i < |errors| && errors[i] == e;
        assert ms[i] == RegisterMessage(e);
      }
    }
    ms
  }

  /** Different failures carry different messages. */
  lemma RegisterMessageInjective(e: RegisterError, e': RegisterError)
    requires RegisterMessage(e) == RegisterMessage(e')
    ensures e == e'
  {
  }

  lemma RegisterRuleListed(e: RegisterError)
    ensures e in RegisterRules
  {
    var i := match e
      case EmailRequired => 0 case EmailMalformed => 1 case PasswordRequired => 2
      case PasswordTooShort => 3 case FullNameRequired => 4 case CardRequired => 5
      case UniversityIdInvalid => 6;
    assert RegisterRules[i] == e;
  }

  predicate RegisterValid(dto: RegisterDto, isEmail: string -> bool) {
    RegisterErrors(dto, isEmail) == []
  }

  /** No failure is reported exactly when every rule passes. */
  lemma NoRegisterErrorIffAllPass(dto: RegisterDto, isEmail: string -> bool)
    ensures RegisterErrors(dto, isEmail) == [] <==> forall e :: !RegisterRuleFails(dto, isEmail, e)
  {
    var errors := RegisterErrors(dto, isEmail);
    if errors != [] {
      assert RegisterRuleFails(dto, isEmail, errors[0]);
    }
  }

  /** Valid exactly when all five rules hold. */
  lemma RegisterValidIff(dto: RegisterDto, isEmail: string -> bool)
    ensures RegisterValid(dto, isEmail) <==>
              && NotEmpty(dto.Email) && isEmail(dto.Email)
              && NotEmpty(dto.Password) && |dto.Password| >= 6
              && NotEmpty(dto.FullName) && NotEmpty(dto.UniversityCard)
              && dto.UniversityId > 0
  {
    var errors := RegisterErrors(dto, isEmail);
    if && NotEmpty(dto.Email) && isEmail(dto.Email)
       && NotEmpty(dto.Password) && |dto.Password| >= 6
       && NotEmpty(dto.FullName) && NotEmpty(dto.UniversityCard)
       && dto.UniversityId > 0
    {
      forall e ensures !RegisterRuleFails(dto, isEmail, e) { }
      NoRegisterErrorIffAllPass(dto, isEmail);
    } else {
      var failing :=
        if !NotEmpty(dto.Email) then EmailRequired
        else if !isEmail(dto.Email) then EmailMalformed
        else if !NotEmpty(dto.Password) then PasswordRequired
        else if |dto.Password| < 6 then PasswordTooShort
        else if !NotEmpty(dto.FullName) then FullNameRequired
        else if !NotEmpty(dto.UniversityCard) then CardRequired
        else UniversityIdInvalid;
      assert RegisterRuleFails(dto, isEmail, failing);
      assert failing in errors;
    }
  }

  /** A password of six spaces is long enough but still blank: the two
      password rules are independent and only the first one fails. */
  lemma BlankPasswordReportsOnce(dto: RegisterDto, isEmail: string -> bool)
    requires dto.Password == "      "
    ensures PasswordRequired in RegisterErrors(dto, isEmail)
    ensures PasswordTooShort !in RegisterErrors(dto, isEmail)
  {
    assert IsBlank(dto.Password) by {
      assert forall i :: 0 <= i < |dto.Password| ==> dto.Password[i] == ' ';
    }
    assert RegisterRuleFails(dto, isEmail, PasswordRequired);
    assert !RegisterRuleFails(dto, isEmail, PasswordTooShort);
  }
}
