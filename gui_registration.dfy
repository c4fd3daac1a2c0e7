/**
 * gui_main.py, the registration window: `validate_email` and the checks of
 * `save_student`, run in a fixed order where the first failing check is
 * reported and nothing is written.
 */
module GuiRegistration {
  import opened Wrappers
  import opened Text
  import opened CsvStore
  import opened Validation
  import opened GuiStudents

  /** `[a-zA-Z0-9._%+-]` */
  predicate LocalChar(c: char) {
    IsLetter(c) || IsDigit(c) || c == '.' || c == '_' || c == '%' || c == '+' || c == '-'
  }

  /** `[a-zA-Z0-9.-]` */
  predicate DomainChar(c: char) {
    IsLetter(c) || IsDigit(c) || c == '.' || c == '-'
  }

  predicate AllLocal(s: string) {
    forall i :: 0 <= i < |s| ==> LocalChar(s[i])
  }

  predicate AllDomain(s: string) {
    forall i :: 0 <= i < |s| ==> DomainChar(s[i])
  }

  predicate AllLetters(s: string) {
    forall i :: 0 <= i < |s| ==> IsLetter(s[i])
  }

  /** The language of `[a-zA-Z0-9._%+-]+@[a-zA-Z0-9.-]+\.[a-zA-Z]{2,}`:
      the string splits at some `@` and some later `.` into three runs of
      the right characters and lengths. */
  ghost predicate InEmailLanguage(s: string) {
    exists a, b ::
      && 0 < a < b - 1 && b + 2 < |s|
      && AllLocal(s[..a]) && s[a] == '@'
      && AllDomain(s[a + 1..b]) && s[b] == '.'
      && AllLetters(s[b + 1..])
  }

  /** First index of `c`, or -1. */
  function IndexOf(s: string, c: char): (k: int)
    ensures -1 <= k < |s|
    ensures k >= 0 ==> s[k] == c && c !in s[..k]
    ensures k < 0 ==> c !in s
  {
    if s == [] then -1
    else if s[0] == c then 0
    else
      var k := IndexOf(s[1..], c);
      assert s == [s[0]] + s[1..];
      if k < 0 then -1 else (assert s[..k + 1] == [s[0]] + s[1..][..k]; k + 1)
  }

  /** Last index of `c`, or -1. */
  function LastIndex(s: string, c: char): (k: int)
    ensures -1 <= k < |s|
    ensures k >= 0 ==> s[k] == c && c !in s[k + 1..]
    ensures k < 0 ==> c !in s
  {
    if s == [] then -1
    else if s[|s| - 1] == c then |s| - 1
    else
      assert s == s[..|s| - 1] + [s[|s| - 1]];
      var k := LastIndex(s[..|s| - 1], c);
      if k >= 0 then assert s[k + 1..] == s[..|s| - 1][k + 1..] + [s[|s| - 1]]; k else k
  }

  /** The domain `[a-zA-Z0-9.-]+\.[a-zA-Z]{2,}`, decided at its last dot. */
  predicate DomainShape(d: string) {
    var b := LastIndex(d, '.');
    b > 0 && AllDomain(d[..b]) && |d| - b - 1 >= 2 && AllLetters(d[b + 1..])
  }

  /** The whole pattern, decided at the first `@`. */
  predicate EmailShape(s: string) {
    var a := IndexOf(s, '@');
    a > 0 && AllLocal(s[..a]) && DomainShape(s[a + 1..])
  }

  /** `re.match(pattern, email) is not None`. With `^...$` and no flags,
      Python's `$` also matches just before a final newline. */
  predicate ValidateEmail(email: string) {
    EmailShape(email)
    || (|email| > 0 && email[|email| - 1] == '\n' && EmailShape(email[..|email| - 1]))
  }

  lemma LocalHasNoAt(t: string)
    requires AllLocal(t)
    ensures '@' !in t
  {
    forall i | 0 <= i < |t| ensures t[i] != '@' { assert LocalChar(t[i]); }
  }

  lemma DomainHasNoAt(t: string)
    requires AllDomain(t)
    ensures '@' !in t
  {
    forall i | 0 <= i < |t| ensures t[i] != '@' { assert DomainChar(t[i]); }
  }

  lemma LettersHaveNo(t: string, c: char)
    requires AllLetters(t) && !IsLetter(c)
    ensures c !in t
  {
    forall i | 0 <= i < |t| ensures t[i] != c { assert IsLetter(t[i]); }
  }

  /** An `@` preceded only by local-part characters is the first one. */
  lemma FirstAt(s: string, a: int)
    requires 0 <= a < |s| && s[a] == '@' && AllLocal(s[..a])
    ensures IndexOf(s, '@') == a
  {
    LocalHasNoAt(s[..a]);
    var k := IndexOf(s, '@');
    assert s[a] in s;
    assert forall j :: 0 <= j < a ==> s[j] != '@' by {
      forall j | 0 <= j < a ensures s[j] != '@' { assert s[..a][j] == s[j]; }
    }
    assert forall j :: 0 <= j < k ==> s[j] != '@' by {
      forall j | 0 <= j < k ensures s[j] != '@' { assert s[..k][j] == s[j]; }
    }
  }

  /** A `.` followed only by letters is the last one. */
  lemma LastDot(d: string, b: int)
    requires 0 <= b < |d| && d[b] == '.' && AllLetters(d[b + 1..])
    ensures LastIndex(d, '.') == b
  {
    LettersHaveNo(d[b + 1..], '.');
    var l := LastIndex(d, '.');
    assert d[b] in d;
    assert forall j :: b < j < |d| ==> d[j] != '.' by {
      forall j | b < j < |d| ensures d[j] != '.' { assert d[b + 1..][j - b - 1] == d[j]; }
    }
    assert forall j :: l < j < |d| ==> d[j] != '.' by {
      forall j | l < j < |d| ensures d[j] != '.' { assert d[l + 1..][j - l - 1] == d[j]; }
    }
  }

  lemma ShapeInLanguage(s: string)
    requires EmailShape(s)
    ensures InEmailLanguage(s)
  {
    var a := IndexOf(s, '@');
    var d := s[a + 1..];
    var b := LastIndex(d, '.');
    assert d[..b] == s[a + 1..a + 1 + b];
    assert d[b + 1..] == s[a + 1 + b + 1..];
    assert s[a + 1 + b] == d[b];
  }

  lemma LanguageHasShape(s: string, a: int, b: int)
    requires && 0 < a < b - 1 && b + 2 < |s|
             && AllLocal(s[..a]) && s[a] == '@'
             && AllDomain(s[a + 1..b]) && s[b] == '.'
             && AllLetters(s[b + 1..])
    ensures EmailShape(s)
  {
    FirstAt(s, a);
    var d := s[a + 1..];
    assert d[b - a - 1] == '.';
    assert d[b - a..] == s[b + 1..];
    LastDot(d, b - a - 1);
    assert d[..b - a - 1] == s[a + 1..b];
  }

  /** The first-`@`/last-`.` decision procedure accepts exactly the regular
      language of the pattern. */
  lemma EmailShapeIsLanguage(s: string)
    ensures EmailShape(s) <==> InEmailLanguage(s)
  {
    if EmailShape(s) {
      ShapeInLanguage(s);
    }
    if InEmailLanguage(s) {
      var a, b :| && 0 < a < b - 1 && b + 2 < |s|
                  && AllLocal(s[..a]) && s[a] == '@'
                  && AllDomain(s[a + 1..b]) && s[b] == '.'
                  && AllLetters(s[b + 1..]);
      LanguageHasShape(s, a, b);
    }
  }

  /** An accepted address contains exactly one `@`. */
  lemma EmailHasOneAt(s: string)
    requires EmailShape(s)
    ensures multiset(s)['@'] == 1
  {
    var a := IndexOf(s, '@');
    var d := s[a + 1..];
    var b := LastIndex(d, '.');
    assert s == s[..a] + [s[a]] + d;
    assert d == d[..b] + [d[b]] + d[b + 1..];
    DomainHasNoAt(d[..b]);
    LettersHaveNo(d[b + 1..], '@');
    assert multiset(d)['@'] == 0;
  }

  /** `save_student` strips the address first, so there the pattern is
      matched exactly and the newline case never arises. */
  lemma ValidateStrippedEmail(email: string)
    requires IsStripped(email)
    ensures ValidateEmail(email) <==> InEmailLanguage(email)
    ensures InEmailLanguage(email) ==> email != ""
  {
    EmailShapeIsLanguage(email);
    if |email| > 0 {
      assert IsSpace('\n');
    }
  }

  /** `allowed_course_chars`. */
  predicate CourseChar(c: char) {
    IsLetter(c) || IsDigit(c) || c == ' ' || c == '-' || c == '&' || c == '(' || c == ')'
  }

  predicate AllCourseChars(course: string) {
    forall i :: 0 <= i < |course| ==> CourseChar(course[i])
  }

  /** The messages of `save_student`, in the order its checks run. */
  datatype Rejection =
    | IdEmpty | IdNotNumeric | IdWrongLength | IdTaken
    | NameEmpty | NameTooShort | NameBadChars
    | CourseEmpty | CourseTooShort | CourseBadChars
    | EmailEmpty | EmailBadFormat

  /** The chain of early returns, on the stripped fields. */
  function CheckStudent(id: string, name: string, course: string, email: string,
                        registered: set<string>): Option<Rejection>
  {
    if id == "" then Some(IdEmpty)
    else if !IsDigits(id) then Some(IdNotNumeric)
    else if |id| != 8 then Some(IdWrongLength)
    else if id in registered then Some(IdTaken)
    else if name == "" then Some(NameEmpty)
    else if |name| < 2 then Some(NameTooShort)
    else if !IsNameText(name) then Some(NameBadChars)
    else if course == "" then Some(CourseEmpty)
    else if |course| < 2 then Some(CourseTooShort)
    else if !AllCourseChars(course) then Some(CourseBadChars)
    else if email == "" then Some(EmailEmpty)
    else if !ValidateEmail(email) then Some(EmailBadFormat)
    else None
  }

  /** Position of a check in the chain. */
  function Rank(e: Rejection): nat {
    match e
    case IdEmpty => 0 case IdNotNumeric => 1 case IdWrongLength => 2 case IdTaken => 3
    case NameEmpty => 4 case NameTooShort => 5 case NameBadChars => 6
    case CourseEmpty => 7 case CourseTooShort => 8 case CourseBadChars => 9
    case EmailEmpty => 10 case EmailBadFormat => 11
  }

  /** Whether the check behind `e`, taken on its own, fails. */
  predicate Fails(e: Rejection, id: string, name: string, course: string, email: string,
                  registered: set<string>) {
    match e
    case IdEmpty => id == ""
    case IdNotNumeric => !IsDigits(id)
    case IdWrongLength => |id| != 8
    case IdTaken => id in registered
    case NameEmpty => name == ""
    case NameTooShort => |name| < 2
    case NameBadChars => !IsNameText(name)
    case CourseEmpty => course == ""
    case CourseTooShort => |course| < 2
    case CourseBadChars => !AllCourseChars(course)
    case EmailEmpty => email == ""
    case EmailBadFormat => !ValidateEmail(email)
  }

  /** First failure wins: the reported rejection is a failing check and no
      check ranked before it fails. */
  lemma FirstFailureWins(id: string, name: string, course: string, email: string,
                         registered: set<string>, e: Rejection)
    requires CheckStudent(id, name, course, email, registered) == Some(e)
    ensures Fails(e, id, name, course, email, registered)
    ensures forall e' :: Rank(e') < Rank(e) ==> !Fails(e', id, name, course, email, registered)
  {
    forall e' | Rank(e') < Rank(e) ensures !Fails(e', id, name, course, email, registered) {
      match e' {
        case IdEmpty => case IdNotNumeric => case IdWrongLength => case IdTaken =>
        case NameEmpty => case NameTooShort => case NameBadChars =>
        case CourseEmpty => case CourseTooShort => case CourseBadChars =>
        case EmailEmpty => case EmailBadFormat =>
      }
    }
  }

  /** Registration goes through iff every field is well formed: an unused
      8-digit id, a name of at least two letters/spaces/hyphens with a letter,
      a course of at least two allowed characters, and an address in the
      pattern's language. */
  lemma AcceptedIff(id: string, name: string, course: string, email: string, registered: set<string>)
    requires IsStripped(email)
    ensures CheckStudent(id, name, course, email, registered) == None <==>
      && IsStudentId(id) && id !in registered
      && |name| >= 2 && OnlyNameChars(name) && HasLetter(name)
      && |course| >= 2 && AllCourseChars(course)
      && InEmailLanguage(email)
  {
    CheckPasses(id, name, course, email, registered);
    NameTextIff(name);
    ValidateStrippedEmail(email);
  }

  /** The chain passes iff no check fails. */
  lemma CheckPasses(id: string, name: string, course: string, email: string, registered: set<string>)
    ensures CheckStudent(id, name, course, email, registered) == None <==>
      && IsStudentId(id) && id !in registered
      && |name| >= 2 && IsNameText(name)
      && |course| >= 2 && AllCourseChars(course)
      && email != "" && ValidateEmail(email)
  {
  }

  /** The GUI's three id checks together are the scripts' id rule. */
  lemma GuiIdChecksAreIdRule(id: string, name: string, course: string, email: string, registered: set<string>)
    ensures var r := CheckStudent(id, name, course, email, registered);
      r == Some(IdEmpty) || r == Some(IdNotNumeric) || r == Some(IdWrongLength) <==> !IsStudentId(id)
  {
    if IsStudentId(id) {
      assert id != "" && IsDigits(id) && |id| == 8;
    }
  }

  const StudentsHeader: seq<string> := ["student_id", "name", "course", "email"]

  /** `save_student()`: strip the four entries, run the chain against the
      ids `load_students` finds, and only when all pass append one row (with
      the header first when students.csv did not exist). */
  method SaveStudent(students: CsvFile, rawId: string, rawName: string, rawCourse: string, rawEmail: string)
    returns (rejection: Option<Rejection>)
    requires students.Valid()
    modifies students
    ensures students.Valid()
    ensures var id, name, course, email := Strip(rawId), Strip(rawName), Strip(rawCourse), Strip(rawEmail);
      && rejection == CheckStudent(id, name, course, email, StudentTable(old(students.View())).Keys)
      && (rejection.Some? ==>
            students.rows == old(students.rows) && students.present == old(students.present)
            && students.readable == old(students.readable))
      && (rejection.None? ==>
            students.rows == old(students.Base(StudentsHeader)) + [[id, name, course, email]]
            && students.present && students.readable == (old(students.readable) || !old(students.present)))
  {
    var id, name, course, email := Strip(rawId), Strip(rawName), Strip(rawCourse), Strip(rawEmail);
    var existing := LoadStudents(students.View());
    rejection := CheckStudent(id, name, course, email, existing.Keys);
    if rejection.None? {
      students.AppendWithHeader(StudentsHeader, [id, name, course, email]);
    }
  }
}
