/**
 * The form checks of the register handler and of `sharedPostValidation`:
 * each collects every violated rule, in the order the checks run, into one
 * error list.
 */
module Validation {
  import opened Opt
  import opened JsString
  import opened Collaborators
  import opened Records

  /** The list `errors.push(message)` contributes when its guard holds. */
  function Report(violated: bool, message: Message): (r: seq<Message>)
    ensures message in r <==> violated
    ensures |r| <= 1
  {
    if violated then [message] else []
  }

  /**
   * The error list of a registration, for the trimmed username `u` and
   * password `p`, `taken` telling whether a user named `u` exists. The
   * at-least-8 password rule is guarded by the USERNAME being non-empty, and
   * the length rules count UTF-16 code units, as in the source.
   */
  function RegistrationErrors(u: string, p: string, taken: bool): (r: seq<Message>)
    ensures |r| <= 8
    ensures forall m :: m in r ==> CheckOrder(m) < 8
  {
    Report(u == "", UsernameRequired)
    + Report(u != "" && Utf16Length(u) < 3, UsernameTooShort)
    + Report(u != "" && Utf16Length(u) > 10, UsernameTooLong)
    + Report(u != "" && !MatchesAlphanumeric(u), UsernameNotAlphanumeric)
    + Report(taken, UsernameTaken)
    + Report(p == "", PasswordRequired)
    + Report(u != "" && Utf16Length(p) < 8, PasswordTooShort)
    + Report(p != "" && Utf16Length(p) > 70, PasswordTooLong)
  }

  /** Each message appears at most once, and in the order its check runs. */
  predicate InCheckOrder(r: seq<Message>) {
    forall i, j :: 0 <= i < j < |r| ==> CheckOrder(r[i]) < CheckOrder(r[j])
  }

  /** A guarded push after the checks that run before it keeps the list in check order. */
  lemma PushKeepsCheckOrder(errors: seq<Message>, violated: bool, message: Message)
    requires InCheckOrder(errors)
    requires forall m :: m in errors ==> CheckOrder(m) < CheckOrder(message)
    ensures InCheckOrder(errors + Report(violated, message))
    ensures forall m :: m in errors + Report(violated, message) ==> CheckOrder(m) <= CheckOrder(message)
  {
  }

  /** The registration messages come out at most once each, in the order of lines 141-155. */
  lemma RegistrationInCheckOrder(u: string, p: string, taken: bool)
    ensures InCheckOrder(RegistrationErrors(u, p, taken))
  {
    var r1 := Report(u == "", UsernameRequired);
    PushKeepsCheckOrder(r1, u != "" && Utf16Length(u) < 3, UsernameTooShort);
    var r2 := r1 + Report(u != "" && Utf16Length(u) < 3, UsernameTooShort);
    PushKeepsCheckOrder(r2, u != "" && Utf16Length(u) > 10, UsernameTooLong);
    var r3 := r2 + Report(u != "" && Utf16Length(u) > 10, UsernameTooLong);
    PushKeepsCheckOrder(r3, u != "" && !MatchesAlphanumeric(u), UsernameNotAlphanumeric);
    var r4 := r3 + Report(u != "" && !MatchesAlphanumeric(u), UsernameNotAlphanumeric);
    PushKeepsCheckOrder(r4, taken, UsernameTaken);
    var r5 := r4 + Report(taken, UsernameTaken);
    PushKeepsCheckOrder(r5, p == "", PasswordRequired);
    var r6 := r5 + Report(p == "", PasswordRequired);
    PushKeepsCheckOrder(r6, u != "" && Utf16Length(p) < 8, PasswordTooShort);
    var r7 := r6 + Report(u != "" && Utf16Length(p) < 8, PasswordTooShort);
    PushKeepsCheckOrder(r7, p != "" && Utf16Length(p) > 70, PasswordTooLong);
  }

  /** Where a registration message's check stands among lines 141-155. */
  function CheckOrder(m: Message): nat {
    match m
    case UsernameRequired => 0
    case UsernameTooShort => 1
    case UsernameTooLong => 2
    case UsernameNotAlphanumeric => 3
    case UsernameTaken => 4
    case PasswordRequired => 5
    case PasswordTooShort => 6
    case PasswordTooLong => 7
    case _ => 8
  }

  /** The username the registration rules let through. */
  predicate AcceptableUsername(u: string) {
    3 <= Utf16Length(u) <= 10 && MatchesAlphanumeric(u)
  }

  /** The password the registration rules let through. */
  predicate AcceptablePassword(p: string) {
    8 <= Utf16Length(p) <= 70
  }

  /** The register handler's checks, pushing one message per violated rule. */
  method ValidateRegistration(u: string, p: string, taken: bool) returns (errors: seq<Message>)
    ensures errors == RegistrationErrors(u, p, taken)
    ensures errors == [] <==> AcceptableUsername(u) && !taken && AcceptablePassword(p)
  {
    errors := [];
    if u == "" { errors := errors + [UsernameRequired]; }
    ghost var expected := Report(u == "", UsernameRequired);
    assert errors == expected;
    if u != "" && Utf16Length(u) < 3 { errors := errors + [UsernameTooShort]; }
    expected := expected + Report(u != "" && Utf16Length(u) < 3, UsernameTooShort);
    assert errors == expected;
    if u != "" && Utf16Length(u) > 10 { errors := errors + [UsernameTooLong]; }
    expected := expected + Report(u != "" && Utf16Length(u) > 10, UsernameTooLong);
    assert errors == expected;
    if u != "" && !MatchesAlphanumeric(u) { errors := errors + [UsernameNotAlphanumeric]; }
    expected := expected + Report(u != "" && !MatchesAlphanumeric(u), UsernameNotAlphanumeric);
    assert errors == expected;
    if taken { errors := errors + [UsernameTaken]; }
    expected := expected + Report(taken, UsernameTaken);
    assert errors == expected;
    if p == "" { errors := errors + [PasswordRequired]; }
    expected := expected + Report(p == "", PasswordRequired);
    assert errors == expected;
    if u != "" && Utf16Length(p) < 8 { errors := errors + [PasswordTooShort]; }
    expected := expected + Report(u != "" && Utf16Length(p) < 8, PasswordTooShort);
    assert errors == expected;
    if p != "" && Utf16Length(p) > 70 { errors := errors + [PasswordTooLong]; }
    expected := expected + Report(p != "" && Utf16Length(p) > 70, PasswordTooLong);
    assert errors == expected;
    RegistrationAcceptsExactly(u, p, taken);
  }

  /** Registration succeeds exactly when the username and password follow the rules and the name is free. */
  lemma RegistrationAcceptsExactly(u: string, p: string, taken: bool)
    ensures RegistrationErrors(u, p, taken) == [] <==> AcceptableUsername(u) && !taken && AcceptablePassword(p)
  {
    var errors := RegistrationErrors(u, p, taken);
    if u == "" {
      assert UsernameRequired in errors;
    } else if !(AcceptableUsername(u) && !taken && AcceptablePassword(p)) {
      if Utf16Length(u) < 3 {
        assert UsernameTooShort in errors;
      } else if Utf16Length(u) > 10 {
        assert UsernameTooLong in errors;
      } else if !MatchesAlphanumeric(u) {
        assert UsernameNotAlphanumeric in errors;
      } else if taken {
        assert UsernameTaken in errors;
      } else if Utf16Length(p) < 8 {
        assert PasswordTooShort in errors;
      } else {
        assert PasswordTooLong in errors;
      }
    }
  }

  /** The rule behind each registration message, with the guards of lines 141-155. */
  predicate RegistrationRuleBroken(m: Message, u: string, p: string, taken: bool) {
    match m
    case UsernameRequired => u == ""
    case UsernameTooShort => u != "" && Utf16Length(u) < 3
    case UsernameTooLong => Utf16Length(u) > 10
    case UsernameNotAlphanumeric => u != "" && !MatchesAlphanumeric(u)
    case UsernameTaken => taken
    case PasswordRequired => p == ""
    case PasswordTooShort => u != "" && Utf16Length(p) < 8
    case PasswordTooLong => Utf16Length(p) > 70
    case _ => false
  }

  /** Each message is in the list exactly when its rule is broken, and no other message is. */
  lemma RegistrationMessages(u: string, p: string, taken: bool)
    ensures forall m :: m in RegistrationErrors(u, p, taken) <==> RegistrationRuleBroken(m, u, p, taken)
  {
    forall m ensures m in RegistrationErrors(u, p, taken) <==> RegistrationRuleBroken(m, u, p, taken) {
      assert Utf16Length(u) > 10 ==> u != "";
      assert Utf16Length(p) > 70 ==> p != "";
    }
  }

  /** An empty username yields "Username is required" and no other username message. */
  lemma EmptyUsernameOnlyRequired(p: string)
    ensures RegistrationErrors("", p, false)
            == [UsernameRequired] + Report(p == "", PasswordRequired) + Report(Utf16Length(p) > 70, PasswordTooLong)
  {
  }

  /**
   * Quirk of line 154: with an empty username a short password draws no
   * "at least 8 characters" message.
   */
  lemma ShortPasswordUnreportedWithoutUsername(p: string)
    requires p != "" && Utf16Length(p) < 8
    ensures RegistrationErrors("", p, false) == [UsernameRequired]
  {
  }

  /** With a username present, an empty password draws both password messages. */
  lemma EmptyPasswordTwoMessages(u: string, taken: bool)
    requires AcceptableUsername(u) && !taken
    ensures RegistrationErrors(u, "", taken) == [PasswordRequired, PasswordTooShort]
  {
  }

  /**
   * Quirk of lines 143-144: a ten-character name passes despite "less than
   * 10 characters", and digits pass despite "can only contain letters".
   */
  lemma TenCharactersWithDigitsAccepted(p: string)
    requires AcceptablePassword(p)
    ensures RegistrationErrors("user567890", p, false) == []
  {
    AlphanumericIsPlain("user567890");
    RegistrationAcceptsExactly("user567890", p, false);
  }

  /** The two-character name "ab" is refused for its length, and only for that among the name rules. */
  lemma TwoCharacterUsernameRefused(p: string)
    requires AcceptablePassword(p)
    ensures RegistrationErrors("ab", p, false) == [UsernameTooShort]
  {
    AlphanumericIsPlain("ab");
  }

  /** What `sharedPostValidation` leaves behind. */
  datatype PostCheck =
    /** `req.body.body.trim()` on a value that is not a string throws a TypeError. */
    | TypeErrorThrown
    | Checked(title: string, body: string, errors: seq<Message>)

  /**
   * `sharedPostValidation`: a non-string title becomes ""; a non-string body
   * resets the TITLE (line 206) and then throws when it is trimmed; otherwise
   * both fields are trimmed and sanitised and each empty field is reported.
   */
  function PostValidation(title: Option<string>, body: Option<string>, sanitize: Sanitizer): (r: PostCheck)
    ensures r.TypeErrorThrown? <==> body.None?
    ensures r.Checked? ==> && (TitleRequired in r.errors <==> r.title == "")
                           && (BodyRequired in r.errors <==> r.body == "")
                           && (forall m :: m in r.errors ==> m == TitleRequired || m == BodyRequired)
                           && |r.errors| <= 2
                           && (|r.errors| == 2 ==> r.errors == [TitleRequired, BodyRequired])
                           && (r.errors == [] <==> r.title != "" && r.body != "")
    ensures r.Checked? ==> r.title == sanitize(Trim(title.GetOr(""))) && r.body == sanitize(Trim(body.value))
  {
    match body
    case None => TypeErrorThrown
    case Some(b) =>
      var t, b' := sanitize(Trim(title.GetOr(""))), sanitize(Trim(b));
      Checked(t, b', Report(t == "", TitleRequired) + Report(b' == "", BodyRequired))
  }

  /** The validation as the source runs it, field by field. */
  method SharedPostValidation(title: Option<string>, body: Option<string>, sanitize: Sanitizer)
    returns (r: PostCheck)
    ensures r == PostValidation(title, body, sanitize)
  {
    var t := "";
    if title.Some? { t := title.value; }
    if body.None? { t := ""; }
    t := sanitize(Trim(t));
    if body.None? {
      return TypeErrorThrown;
    }
    assert t == sanitize(Trim(title.GetOr("")));
    var b := sanitize(Trim(body.value));
    var errors := [];
    if t == "" { errors := errors + [TitleRequired]; }
    if b == "" { errors := errors + [BodyRequired]; }
    assert errors == Report(t == "", TitleRequired) + Report(b == "", BodyRequired);
    r := Checked(t, b, errors);
  }

  /** A title or body that is blank, or not a string at all for the title, is always reported. */
  lemma BlankFieldsReported(title: Option<string>, body: string, sanitize: Sanitizer)
    requires SanitizerLawful(sanitize)
    ensures var r := PostValidation(title, Some(body), sanitize);
            && ((forall i :: 0 <= i < |title.GetOr("")| ==> IsWhiteSpace(title.GetOr("")[i])) ==> TitleRequired in r.errors)
            && ((forall i :: 0 <= i < |body| ==> IsWhiteSpace(body[i])) ==> BodyRequired in r.errors)
  {
    TrimBlank(title.GetOr(""));
    TrimBlank(body);
  }
}
