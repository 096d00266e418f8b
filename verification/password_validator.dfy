/**
  The password rule engine: an ordered table of rules, each a check over the
  candidate string paired with the message reported when the check fails, and
  `ValidatePassword`, which keeps the messages of every failing rule in table
  order and reports the password valid exactly when none failed.
 */
module PasswordValidator {
  import opened JsonValue

  // Violation messages, verbatim.
  const MinLengthMessage := "A senha precisa ter no mínimo 8 caracteres"
  const UppercaseMessage := "A senha precisa ter pelo menos 1 letra maiúscula"
  const NumberMessage := "A senha precisa ter pelo menos 1 número"
  const SpecialMessage := "A senha precisa ter pelo menos 1 caractere especial (!@#$%^&*)"

  /** The single message of the engine's own type gate. */
  const NotAStringMessage := "Campo 'senha' deve ser uma string"

  const MinPasswordLength: nat := 8

  /** The only characters the `special` rule accepts. */
  const SpecialChars := "!@#$%^&*"

  /** The character sets of the three regular-expression checks. */
  datatype CharClass = Uppercase | Digit | Special

  predicate InClass(cls: CharClass, c: char)
  {
    match cls
    case Uppercase => 'A' <= c <= 'Z'
    case Digit => '0' <= c <= '9'
    case Special => c in SpecialChars
  }

  /** What a rule checks: a minimum length, or the presence of one character
      of a class. */
  datatype Check = MinLength(n: nat) | Contains(cls: CharClass)

  /** A rule of the table: its symbolic name, its check, and its message. */
  datatype Rule = Rule(name: string, check: Check, message: string)

  /** The fixed rule table, in declaration order. */
  const Rules: seq<Rule> := [
    Rule("minLength", MinLength(MinPasswordLength), MinLengthMessage),
    Rule("uppercase", Contains(Uppercase), UppercaseMessage),
    Rule("number", Contains(Digit), NumberMessage),
    Rule("special", Contains(Special), SpecialMessage)
  ]

  /** The result of one validation. */
  datatype Verdict = Verdict(valida: bool, erros: seq<string>)

  // ---------------------------------------------------------------------------
  // Checks

  /** A left-to-right scan for a character of `cls`, as a character-class
      regular expression's `test` performs it. */
  function ContainsClass(cls: CharClass, s: string): bool
  {
    if |s| == 0 then false
    else InClass(cls, s[0]) || ContainsClass(cls, s[1..])
  }

  /** The scan succeeds exactly when some position holds a character of the class. */
  lemma {:induction false} ContainsClassIffWitness(cls: CharClass, s: string)
    ensures ContainsClass(cls, s) <==> exists i :: 0 <= i < |s| && InClass(cls, s[i])
  {
    if |s| > 0 {
      ContainsClassIffWitness(cls, s[1..]);
      if ContainsClass(cls, s[1..]) {
        var i :| 0 <= i < |s[1..]| && InClass(cls, s[1..][i]);
        assert InClass(cls, s[i + 1]);
      }
      if exists i :: 0 <= i < |s| && InClass(cls, s[i]) {
        var i :| 0 <= i < |s| && InClass(cls, s[i]);
        if i > 0 {
          assert InClass(cls, s[1..][i - 1]);
        }
      }
    }
  }

  predicate Passes(check: Check, s: string)
  {
    match check
    case MinLength(n) => |s| >= n
    case Contains(cls) => ContainsClass(cls, s)
  }

  // ---------------------------------------------------------------------------
  // The policy stated directly, independent of the table

  predicate HasUpper(s: string)
  {
    exists i :: 0 <= i < |s| && 'A' <= s[i] <= 'Z'
  }

  predicate HasDigit(s: string)
  {
    exists i :: 0 <= i < |s| && '0' <= s[i] <= '9'
  }

  predicate HasSpecial(s: string)
  {
    exists i :: 0 <= i < |s| && s[i] in {'!', '@', '#', '$', '%', '^', '&', '*'}
  }

  /** At least eight characters, an ASCII capital, an ASCII digit and one of
      the eight special characters. */
  predicate MeetsPolicy(s: string)
  {
    |s| >= 8 && HasUpper(s) && HasDigit(s) && HasSpecial(s)
  }

  /** The violations the policy defines for `s`, written out one rule at a time. */
  function ExpectedErrors(s: string): seq<string>
  {
    (if |s| < 8 then [MinLengthMessage] else [])
    + (if HasUpper(s) then [] else [UppercaseMessage])
    + (if HasDigit(s) then [] else [NumberMessage])
    + (if HasSpecial(s) then [] else [SpecialMessage])
  }

  // ---------------------------------------------------------------------------
  // Filter and map over the rule table

  /** The rules of `rules` whose check fails on `s`, in their original order. */
  function FailingRules(rules: seq<Rule>, s: string): (failed: seq<Rule>)
    ensures |failed| <= |rules|
    ensures forall k :: 0 <= k < |failed| ==> !Passes(failed[k].check, s)
  {
    if |rules| == 0 then []
    else
      var rest := FailingRules(rules[1..], s);
      if Passes(rules[0].check, s) then rest else [rules[0]] + rest
  }

  function MessagesOf(rs: seq<Rule>): seq<string>
  {
    seq(|rs|, k requires 0 <= k < |rs| => rs[k].message)
  }

  /** The messages of the failing rules of the table, in table order. */
  function Errors(s: string): seq<string>
  {
    MessagesOf(FailingRules(Rules, s))
  }

  /** `validatePassword`: a non-string is turned away with a single message
      and no rule evaluated; a string is checked against every rule. */
  function ValidatePassword(senha: Value): (v: Verdict)
    ensures !senha.Str? ==> v == Verdict(false, [NotAStringMessage])
    ensures senha.Str? ==> v.erros == ExpectedErrors(senha.s)
    ensures v.valida <==> v.erros == []
    ensures v.valida <==> senha.Str? && MeetsPolicy(senha.s)
    ensures |v.erros| <= |Rules|
  {
    if !senha.Str? then
      Verdict(false, [NotAStringMessage])
    else
      var erros := Errors(senha.s);
      ErrorsMatchExpected(senha.s);
      Verdict(|erros| == 0, erros)
  }

  // ---------------------------------------------------------------------------
  // Properties of the table

  /** The table checks exactly the policy, rule by rule. */
  lemma ChecksMatchPolicy(s: string)
    ensures Passes(Rules[0].check, s) <==> |s| >= 8
    ensures Passes(Rules[1].check, s) <==> HasUpper(s)
    ensures Passes(Rules[2].check, s) <==> HasDigit(s)
    ensures Passes(Rules[3].check, s) <==> HasSpecial(s)
  {
    ContainsClassIffWitness(Uppercase, s);
    ContainsClassIffWitness(Digit, s);
    ContainsClassIffWitness(Special, s);
  }

  /** One step of the filter: the head rule is kept exactly when it fails. */
  lemma FailingRulesStep(rules: seq<Rule>, s: string)
    requires |rules| > 0
    ensures FailingRules(rules, s) ==
              (if Passes(rules[0].check, s) then [] else [rules[0]]) + FailingRules(rules[1..], s)
  {
  }

  lemma MessagesOfAppend(xs: seq<Rule>, ys: seq<Rule>)
    ensures MessagesOf(xs + ys) == MessagesOf(xs) + MessagesOf(ys)
  {
  }

  /** The rule kept from position `i` of the table: itself if it fails, nothing otherwise. */
  function KeptAt(i: nat, s: string): seq<Rule>
    requires i < |Rules|
  {
    if Passes(Rules[i].check, s) then [] else [Rules[i]]
  }

  /** One step of the filter over a suffix of the table. */
  lemma FailingRulesOfSuffix(i: nat, s: string)
    requires i < |Rules|
    ensures FailingRules(Rules[i..], s) == KeptAt(i, s) + FailingRules(Rules[i + 1..], s)
  {
    assert Rules[i..][0] == Rules[i];
    assert Rules[i..][1..] == Rules[i + 1..];
    FailingRulesStep(Rules[i..], s);
  }

  /** Filtering the table rule by rule. */
  lemma FailingRulesOfTable(s: string)
    ensures FailingRules(Rules, s) == KeptAt(0, s) + (KeptAt(1, s) + (KeptAt(2, s) + KeptAt(3, s)))
  {
    FailingRulesOfSuffix(3, s);
    assert Rules[4..] == [];
    var f3 := FailingRules(Rules[3..], s);
    assert f3 == KeptAt(3, s);
    FailingRulesOfSuffix(2, s);
    var f2 := FailingRules(Rules[2..], s);
    assert f2 == KeptAt(2, s) + f3;
    FailingRulesOfSuffix(1, s);
    var f1 := FailingRules(Rules[1..], s);
    assert f1 == KeptAt(1, s) + f2;
    FailingRulesOfSuffix(0, s);
    assert Rules[0..] == Rules;
  }

  /** The message reported for position `i` of the table. */
  lemma MessagesOfKept(i: nat, s: string)
    requires i < |Rules|
    ensures MessagesOf(KeptAt(i, s)) == if Passes(Rules[i].check, s) then [] else [Rules[i].message]
  {
  }

  /** The messages of the table's failing rules, position by position. */
  function ReportedAt(i: nat, s: string): seq<string>
    requires i < |Rules|
  {
    MessagesOf(KeptAt(i, s))
  }

  lemma ErrorsRuleByRule(s: string)
    ensures Errors(s) == ReportedAt(0, s) + (ReportedAt(1, s) + (ReportedAt(2, s) + ReportedAt(3, s)))
  {
    FailingRulesOfTable(s);
    var k0, k1, k2, k3 := KeptAt(0, s), KeptAt(1, s), KeptAt(2, s), KeptAt(3, s);
    MessagesOfAppend(k0, k1 + (k2 + k3));
    MessagesOfAppend(k1, k2 + k3);
    MessagesOfAppend(k2, k3);
  }

  lemma ExpectedErrorsRuleByRule(s: string)
    ensures ExpectedErrors(s) == ReportedAt(0, s) + (ReportedAt(1, s) + (ReportedAt(2, s) + ReportedAt(3, s)))
  {
    ChecksMatchPolicy(s);
    MessagesOfKept(0, s);
    MessagesOfKept(1, s);
    MessagesOfKept(2, s);
    MessagesOfKept(3, s);
  }

  /** Filtering and mapping the table yields exactly the written-out violations,
      in table order. */
  lemma ErrorsMatchExpected(s: string)
    ensures Errors(s) == ExpectedErrors(s)
  {
    ErrorsRuleByRule(s);
    ExpectedErrorsRuleByRule(s);
  }

  /** No two rules share a name or a message. */
  lemma RuleTableDistinct()
    ensures forall i, j :: 0 <= i < j < |Rules| ==> Rules[i].name != Rules[j].name
    ensures DistinctMessages(Rules)
  {
  }

  // ---------------------------------------------------------------------------
  // Properties of the filter over any table

  /** The filter of a one-rule table keeps that rule exactly when it fails. */
  lemma FailingRulesOfOne(r: Rule, s: string)
    ensures FailingRules([r], s) == if Passes(r.check, s) then [] else [r]
  {
    FailingRulesStep([r], s);
    assert [r][1..] == [];
  }

  /** Filtering distributes over concatenation; with `FailingRulesOfOne` this
      fixes the filter's result on every table, multiplicities included. */
  lemma {:induction false} FailingRulesAppend(xs: seq<Rule>, ys: seq<Rule>, s: string)
    ensures FailingRules(xs + ys, s) == FailingRules(xs, s) + FailingRules(ys, s)
  {
    if |xs| == 0 {
      assert xs + ys == ys;
    } else {
      assert (xs + ys)[0] == xs[0];
      assert (xs + ys)[1..] == xs[1..] + ys;
      FailingRulesAppend(xs[1..], ys, s);
      FailingRulesStep(xs + ys, s);
      FailingRulesStep(xs, s);
    }
  }

  /** The filter keeps exactly the rules of the table that fail. */
  lemma {:induction false} FailingRulesMembership(rules: seq<Rule>, s: string, r: Rule)
    ensures r in FailingRules(rules, s) <==> r in rules && !Passes(r.check, s)
  {
    if |rules| > 0 {
      FailingRulesMembership(rules[1..], s, r);
      FailingRulesStep(rules, s);
      assert rules == [rules[0]] + rules[1..];
    }
  }

  /** A failing rule appears among the failing ones. */
  lemma FailingRuleFound(rules: seq<Rule>, s: string, j: nat)
    requires j < |rules| && !Passes(rules[j].check, s)
    ensures exists b :: 0 <= b < |FailingRules(rules, s)| && FailingRules(rules, s)[b] == rules[j]
  {
    FailingRulesMembership(rules, s, rules[j]);
    var failed := FailingRules(rules, s);
    var b :| 0 <= b < |failed| && failed[b] == rules[j];
  }

  /** Two failing rules keep their relative order among the failing ones. */
  lemma {:induction false} FailingRulesKeepOrder(rules: seq<Rule>, s: string, i: nat, j: nat)
    requires i < j < |rules|
    requires !Passes(rules[i].check, s) && !Passes(rules[j].check, s)
    ensures exists a, b :: 0 <= a < b < |FailingRules(rules, s)|
                           && FailingRules(rules, s)[a] == rules[i]
                           && FailingRules(rules, s)[b] == rules[j]
  {
    var failed := FailingRules(rules, s);
    var tail := rules[1..];
    var rest := FailingRules(tail, s);
    assert tail[j - 1] == rules[j];
    if i == 0 {
      FailingRuleFound(tail, s, j - 1);
      var b :| 0 <= b < |rest| && rest[b] == rules[j];
      assert failed == [rules[0]] + rest;
      assert failed[0] == rules[i] && failed[b + 1] == rules[j];
    } else {
      assert tail[i - 1] == rules[i];
      FailingRulesKeepOrder(tail, s, i - 1, j - 1);
      var a, b :| 0 <= a < b < |rest| && rest[a] == rules[i] && rest[b] == rules[j];
      if Passes(rules[0].check, s) {
        assert failed == rest;
        assert failed[a] == rules[i] && failed[b] == rules[j];
      } else {
        assert failed == [rules[0]] + rest;
        assert failed[a + 1] == rules[i] && failed[b + 1] == rules[j];
      }
    }
  }

  /** No two rules of `rs` carry the same message. */
  predicate DistinctMessages(rs: seq<Rule>)
  {
    forall i, j :: 0 <= i < j < |rs| ==> rs[i].message != rs[j].message
  }

  lemma DistinctMessagesOfTail(rules: seq<Rule>)
    requires |rules| > 0 && DistinctMessages(rules)
    ensures DistinctMessages(rules[1..])
  {
    var tail := rules[1..];
    forall i, j | 0 <= i < j < |tail| ensures tail[i].message != tail[j].message {
      assert tail[i] == rules[i + 1] && tail[j] == rules[j + 1];
    }
  }

  lemma DistinctMessagesOfCons(r: Rule, rest: seq<Rule>)
    requires DistinctMessages(rest)
    requires forall x :: x in rest ==> x.message != r.message
    ensures DistinctMessages([r] + rest)
  {
    var rs := [r] + rest;
    forall a, b | 0 <= a < b < |rs| ensures rs[a].message != rs[b].message {
      assert rs[b] == rest[b - 1] && rs[b] in rest;
      if a > 0 {
        assert rs[a] == rest[a - 1];
      }
    }
  }

  /** Filtering a table whose messages are pairwise distinct keeps them distinct. */
  lemma {:induction false} FailingRulesKeepDistinctMessages(rules: seq<Rule>, s: string)
    requires DistinctMessages(rules)
    ensures DistinctMessages(FailingRules(rules, s))
  {
    if |rules| > 0 {
      var tail := rules[1..];
      DistinctMessagesOfTail(rules);
      FailingRulesKeepDistinctMessages(tail, s);
      FailingRulesStep(rules, s);
      var rest := FailingRules(tail, s);
      if !Passes(rules[0].check, s) {
        forall r | r in rest ensures r.message != rules[0].message {
          FailingRulesMembership(tail, s, r);
          var k :| 0 <= k < |tail| && tail[k] == r;
          assert r == rules[k + 1];
        }
        DistinctMessagesOfCons(rules[0], rest);
      }
    }
  }

  // ---------------------------------------------------------------------------
  // Properties of the engine

  /** A message is reported exactly when some rule carrying it fails. */
  lemma ErrorsAreFailingRuleMessages(s: string, m: string)
    ensures m in Errors(s) <==> exists r :: r in Rules && !Passes(r.check, s) && r.message == m
  {
    var failed := FailingRules(Rules, s);
    if m in Errors(s) {
      var k :| 0 <= k < |failed| && MessagesOf(failed)[k] == m;
      assert failed[k] in failed;
      FailingRulesMembership(Rules, s, failed[k]);
    }
    if exists r :: r in Rules && !Passes(r.check, s) && r.message == m {
      var r :| r in Rules && !Passes(r.check, s) && r.message == m;
      FailingRulesMembership(Rules, s, r);
      var k :| 0 <= k < |failed| && failed[k] == r;
      assert MessagesOf(failed)[k] == m;
    }
  }

  /** Each of the four messages is reported at most once. */
  lemma ErrorsHaveNoDuplicates(s: string)
    ensures forall a, b :: 0 <= a < b < |Errors(s)| ==> Errors(s)[a] != Errors(s)[b]
  {
    RuleTableDistinct();
    FailingRulesKeepDistinctMessages(Rules, s);
  }

  /** The length message is reported exactly when the password is shorter
      than eight characters, whatever its content. */
  lemma MinLengthReportedIffShort(s: string)
    ensures MinLengthMessage in Errors(s) <==> |s| < 8
  {
    ErrorsMatchExpected(s);
  }

  /** A string meeting all four requirements is valid with no messages. */
  lemma PolicyImpliesValid(s: string)
    requires |s| >= 8
    requires exists i :: 0 <= i < |s| && 'A' <= s[i] <= 'Z'
    requires exists i :: 0 <= i < |s| && '0' <= s[i] <= '9'
    requires exists i :: 0 <= i < |s| && s[i] in SpecialChars
    ensures ValidatePassword(Str(s)) == Verdict(true, [])
  {
  }

  /** The special rule accepts a character exactly when it is one of the eight. */
  lemma SpecialCharacterSet(c: char)
    ensures Passes(Rules[3].check, [c]) <==> c in {'!', '@', '#', '$', '%', '^', '&', '*'}
    ensures !Passes(Rules[3].check, ['+']) && !Passes(Rules[3].check, ['='])
  {
    ChecksMatchPolicy([c]);
    if c in {'!', '@', '#', '$', '%', '^', '&', '*'} {
      assert [c][0] == c;
    }
  }

  /** The passwords the accompanying tests expect to pass. */
  lemma ValidExamples()
    ensures ValidatePassword(Str("Abcdef1!")) == Verdict(true, [])
    ensures ValidatePassword(Str("Test123!")) == Verdict(true, [])
    ensures ValidatePassword(Str("MyP@ssw0rd!#")) == Verdict(true, [])
    ensures ValidatePassword(Str("Test!@#$%^&*123")) == Verdict(true, [])
    ensures ValidatePassword(Str("ValidPass1!")) == Verdict(true, [])
    ensures ValidatePassword(Str("ThisIsAVeryLongPassword123!@#")) == Verdict(true, [])
  {
    var s := "Abcdef1!";
    assert s[0] == 'A' && s[6] == '1' && s[7] == '!';
    s := "Test123!";
    assert s[0] == 'T' && s[4] == '1' && s[7] == '!';
    s := "MyP@ssw0rd!#";
    assert s[0] == 'M' && s[7] == '0' && s[3] == '@';
    s := "Test!@#$%^&*123";
    assert s[0] == 'T' && s[12] == '1' && s[4] == '!';
    s := "ValidPass1!";
    assert s[0] == 'V' && s[9] == '1' && s[10] == '!';
    s := "ThisIsAVeryLongPassword123!@#";
    assert s[0] == 'T' && s[23] == '1' && s[26] == '!';
  }

  /** The empty password and a short lower-case one fail all four rules, in table order. */
  lemma ShortLowercaseFailsEveryRule()
    ensures ValidatePassword(Str("")) ==
              Verdict(false, [MinLengthMessage, UppercaseMessage, NumberMessage, SpecialMessage])
    ensures ValidatePassword(Str("abc")) ==
              Verdict(false, [MinLengthMessage, UppercaseMessage, NumberMessage, SpecialMessage])
  {
    ChecksMatchPolicy("abc");
    assert !HasUpper("abc") && !HasDigit("abc") && !HasSpecial("abc");
  }

  /** The four checks on a string, as the table computes them. */
  lemma ContentChecksOf(s: string, upper: bool, digit: bool, special: bool)
    requires ContainsClass(Uppercase, s) == upper
    requires ContainsClass(Digit, s) == digit
    requires ContainsClass(Special, s) == special
    ensures HasUpper(s) == upper && HasDigit(s) == digit && HasSpecial(s) == special
  {
    ChecksMatchPolicy(s);
  }

  /** A lower-case password of eight letters passes only the length rule. */
  lemma LowercaseEightFailsContentRules()
    ensures ValidatePassword(Str("abcdefgh")) ==
              Verdict(false, [UppercaseMessage, NumberMessage, SpecialMessage])
  {
    ContentChecksOf("abcdefgh", false, false, false);
    assert ExpectedErrors("abcdefgh") == [UppercaseMessage, NumberMessage, SpecialMessage];
  }

  // Passwords that miss exactly one requirement report exactly that rule.

  /** No capital letter. */
  lemma MissingUppercaseReported()
    ensures ValidatePassword(Str("abcdef1!")).erros == [UppercaseMessage]
  {
    ContentChecksOf("abcdef1!", false, true, true);
    assert ExpectedErrors("abcdef1!") == [UppercaseMessage];
  }

  /** No digit. */
  lemma MissingDigitReported()
    ensures ValidatePassword(Str("Abcdefg!")).erros == [NumberMessage]
  {
    ContentChecksOf("Abcdefg!", true, false, true);
    assert ExpectedErrors("Abcdefg!") == [NumberMessage];
  }

  /** No special character. */
  lemma MissingSpecialReported()
    ensures ValidatePassword(Str("Abcdef12")).erros == [SpecialMessage]
  {
    ContentChecksOf("Abcdef12", true, true, false);
    assert ExpectedErrors("Abcdef12") == [SpecialMessage];
  }

  /** Too short, every character class present. */
  lemma TooShortReported()
    ensures ValidatePassword(Str("Test1!")).erros == [MinLengthMessage]
  {
    ContentChecksOf("Test1!", true, true, true);
    assert ExpectedErrors("Test1!") == [MinLengthMessage];
  }
}
