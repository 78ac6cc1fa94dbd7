/**
  Concrete inputs, stated as facts about the validator and its address check.
 */
module Scenarios {
  import opened Wrappers
  import opened Text
  import opened Email
  import opened Validation

  lemma AcceptsSimpleAddress()
    ensures EmailPattern("a@b.c")
  {
    var s := "a@b.c";
    assert s[..1] == "a" && s[1 + 1..3] == "b" && s[3 + 1..] == "c";
    assert !IsWS('a') && !IsWS('b') && !IsWS('c');
    assert AllEmailChars(s[..1]) && AllEmailChars(s[1 + 1..3]) && AllEmailChars(s[3 + 1..]);
    assert s[1] == '@' && s[3] == '.';
  }

  lemma RejectsNoAt()
    ensures !EmailPattern("abc")
  {
    IsValidEmailCorrect("abc");
  }

  lemma RejectsNoDot()
    ensures !EmailPattern("a@b")
  {
    IsValidEmailCorrect("a@b");
  }

  lemma RejectsEmptyDomainLabel()
    ensures !EmailPattern("a@.c")
  {
    IsValidEmailCorrect("a@.c");
  }

  lemma RejectsEmptyTopLevel()
    ensures !EmailPattern("a@b.")
  {
    IsValidEmailCorrect("a@b.");
  }

  lemma RejectsDoubleAt()
    ensures !EmailPattern("a@@b.c")
  {
    var s := "a@@b.c";
    assert FindAt(s) == 1;
    assert !EmailChar(s[1 + 1..][0]);
    IsValidEmailCorrect(s);
  }

  lemma RejectsSpace()
    ensures !EmailPattern("a @b.c")
  {
    var s := "a @b.c";
    assert FindAt(s) == 2;
    assert !EmailChar(s[..2][1]);
    IsValidEmailCorrect(s);
  }

  /** A form every rule accepts. */
  const GoodForm := FormInput("Ada", "Lovelace", "a@b.c", "Engines", "cs",
                              "Analytical engine notes", true)

  lemma GoodFormIsValid(shown: ErrorDisplay)
    ensures Validate(shown, GoodForm).valid
    ensures forall f :: ErrorOf(Validate(shown, GoodForm), f).None?
  {
    var x := GoodForm;
    AcceptsSimpleAddress();
    assert !IsBlank(x.firstName) by { assert !IsWS(x.firstName[0]); }
    assert !IsBlank(x.lastName) by { assert !IsWS(x.lastName[0]); }
    assert !IsBlank(x.topic) by { assert !IsWS(x.topic[0]); }
    assert !IsBlank(x.message) by { assert !IsWS(x.message[0]); }
    assert Acceptable(x);
    ValidIffAcceptable(shown, x);
  }

  /** The length rule looks at the untrimmed value: " a" is long enough. */
  lemma LeadingSpaceNamePasses(shown: ErrorDisplay)
    ensures ErrorOf(Validate(shown, GoodForm.(firstName := " a")), FirstName) == None
  {
    var x := GoodForm.(firstName := " a");
    assert !IsWS(x.firstName[1]);
    NameRules(shown, x);
  }

  /** A 19-character message is too short; a 20-character one passes. */
  lemma MessageBoundary(shown: ErrorDisplay)
    ensures ErrorOf(Validate(shown, GoodForm.(message := "abcdefghijklmnopqrs")), Message)
      == Some(MessageTooShort)
    ensures ErrorOf(Validate(shown, GoodForm.(message := "abcdefghijklmnopqrst")), Message)
      == None
  {
    var x := GoodForm.(message := "abcdefghijklmnopqrs");
    var y := GoodForm.(message := "abcdefghijklmnopqrst");
    assert !IsWS(x.message[0]) && !IsWS(y.message[0]);
    TopicAndMessageRules(shown, x);
    TopicAndMessageRules(shown, y);
  }

  /** Blank first name and missing agreement are both reported in one call. */
  lemma TwoFailuresReportedTogether(shown: ErrorDisplay)
    ensures ErrorOf(Validate(shown, GoodForm.(firstName := "  ", agree := false)), FirstName)
      == Some(FirstNameRequired)
    ensures ErrorOf(Validate(shown, GoodForm.(firstName := "  ", agree := false)), Agreement)
      == Some(AgreementMissing)
    ensures !Validate(shown, GoodForm.(firstName := "  ", agree := false)).valid
  {
    var x := GoodForm.(firstName := "  ", agree := false);
    NameRules(shown, x);
    SelectAndAgreementRules(shown, x);
  }
}
