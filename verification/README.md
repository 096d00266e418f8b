# Password validator — Dafny model

This project models the core of a small password-validation microservice.

- **The rule engine** (`validatePassword`). It holds an ordered table of four rules, each a check plus a Portuguese violation message:
  - `minLength`: at least 8 characters.
  - `uppercase`: an ASCII capital `A`–`Z`.
  - `number`: an ASCII digit `0`–`9`.
  - `special`: one of `! @ # $ % ^ & *`.

  A non-string input is rejected with one fixed message and no rule is evaluated. For a string, the engine filters the table for failing rules and maps each one to its message, in table order. The password is valid exactly when no message was reported.
- **The `POST /validar-senha` decision.** The handler applies a presence gate first. It uses JavaScript truthiness, so a missing field, `null`, `false`, `0` and the empty string all fail it. A type gate follows. Only a non-empty string reaches the engine. Gate failures answer 400 with one message. Otherwise the answer is 200 with the engine's verdict, plus a `confirmacao` field only when the password is valid.

Files:

- `json_value.dfy` (module `JsonValue`): the JSON value that `senha` can hold, and JavaScript truthiness.
- `password_validator.dfy` (module `PasswordValidator`): the messages, the rule table as a `seq<Rule>`, the character-class scan that stands for each regular expression's `test`, the recursive filter `FailingRules`, and `ValidatePassword`. It also has `ExpectedErrors`, an independent rule-by-rule statement of the policy, and the lemmas that tie the two together.
- `password_routes.dfy` (module `PasswordRoutes`): `HandleValidate`, the handler as a pure function from the `senha` value to status and payload.

Every operation is a pure function, so it is deterministic by construction.

## Model

| member | source | states |
|---|---|---|
| `PasswordValidator.ContainsClassIffWitness` | src/services/passwordValidator.js:21-35 | The scan standing for `/[A-Z]/`, `/\d/` and `/[!@#$%^&*]/` succeeds exactly when some position of the string holds a character of the class. Both directions are proved. |
| `PasswordValidator.ChecksMatchPolicy` | src/services/passwordValidator.js:15-36 | Each table entry has the meaning given in the module's own summary of the rules: entry 0 holds iff length ≥ 8, entry 1 iff there is an ASCII capital, entry 2 iff there is an ASCII digit, entry 3 iff there is one of the eight special characters. |
| `PasswordValidator.RuleTableDistinct` | src/services/passwordValidator.js:7-36 | No two rules share a name, and no two share a message. |
| `PasswordValidator.SpecialCharacterSet` | src/services/passwordValidator.js:31-35 | On a single character, the special rule holds exactly for `! @ # $ % ^ & *`. `+` and `=` never satisfy it. |
| `PasswordValidator.FailingRules` | src/services/passwordValidator.js:47-48 | The filter keeps at most as many rules as the table has, and every rule it keeps fails on the input. |
| `PasswordValidator.FailingRulesAppend` | src/services/passwordValidator.js:47-48 | For any two tables, filtering their concatenation gives the concatenation of their filters. Together with the one-rule case (`FailingRulesOfOne`), this fixes the filter's result on every table, including how often each rule appears. |
| `PasswordValidator.FailingRulesMembership` | src/services/passwordValidator.js:47-48 | For any table, a rule is kept exactly when it is in the table and its check fails. This lemma alone says nothing about how often a rule appears. |
| `PasswordValidator.FailingRulesKeepOrder` | src/services/passwordValidator.js:47-49 | For any table, two failing rules at positions i < j appear among the kept rules in the same relative order. This lemma alone does not bound repetitions. |
| `PasswordValidator.FailingRulesKeepDistinctMessages` | src/services/passwordValidator.js:47-49 | If a table's messages are pairwise distinct, the messages of its failing rules are pairwise distinct as well. |
| `PasswordValidator.ErrorsMatchExpected` | src/services/passwordValidator.js:15-49 | Filtering and mapping the table gives exactly the rule-by-rule list, in the fixed order minLength, uppercase, number, special. A message appears iff its requirement is unmet. |
| `PasswordValidator.ValidatePassword` | src/services/passwordValidator.js:42-52 | A non-string gives `valida = false` and exactly the "deve ser uma string" message. A string gives the rule-by-rule error list. `valida` holds iff the list is empty, and iff the input is a string meeting the whole policy. At most four messages are reported. |
| `PasswordValidator.ErrorsAreFailingRuleMessages` | src/services/passwordValidator.js:47-49 | A message is reported iff some rule of the table carries it and fails. So nothing outside the table is ever reported. |
| `PasswordValidator.ErrorsHaveNoDuplicates` | src/services/passwordValidator.js:47-49 | No message is reported twice for one input. |
| `PasswordValidator.MinLengthReportedIffShort` | src/services/passwordValidator.js:16-20 | The length message is reported iff the string has fewer than 8 characters, whatever its content. |
| `PasswordValidator.PolicyImpliesValid` | src/services/passwordValidator.js:15-52 | Any string with length ≥ 8, an `A`–`Z`, a `0`–`9` and one of the eight special characters validates with no messages. |
| `PasswordValidator.ValidExamples` | test/passwordValidator.test.js:10-29 | `Abcdef1!`, `Test123!` and `MyP@ssw0rd!#` validate with no messages. So do `Test!@#$%^&*123`, `ValidPass1!` and `ThisIsAVeryLongPassword123!@#`. |
| `PasswordValidator.ShortLowercaseFailsEveryRule` | test/passwordValidator.test.js:140-145 | `""` and `"abc"` are invalid and report all four messages in table order. |
| `PasswordValidator.LowercaseEightFailsContentRules` | test/passwordValidator.test.js:75-83 | `"abcdefgh"` reports exactly the uppercase, number and special messages. |
| `PasswordValidator.MissingUppercaseReported` | test/passwordValidator.test.js:41-46 | `"abcdef1!"` reports exactly the uppercase message. |
| `PasswordValidator.MissingDigitReported` | test/passwordValidator.test.js:48-53 | `"Abcdefg!"` reports exactly the number message. |
| `PasswordValidator.MissingSpecialReported` | test/passwordValidator.test.js:55-60 | `"Abcdef12"` reports exactly the special-character message. |
| `PasswordValidator.TooShortReported` | test/passwordValidator.test.js:33-39 | `"Test1!"` reports exactly the length message. |
| `PasswordRoutes.HandleValidate` | src/routes/password.routes.js:25-68 | A falsy `senha` gets 400 with exactly the "é obrigatório" message. A truthy non-string gets 400 with exactly the "deve ser uma string" message. A non-empty string gets 200 with the engine's `valida` and `erros`. No other status occurs. `confirmacao` is present iff `valida`, and then it is `Senha válida ✅`. |
| `PasswordRoutes.GateResponses` | src/routes/password.routes.js:29-45 | Every 400 answer is invalid and carries exactly one message. A 200 answer never carries the engine's own type-gate message and carries at most four messages. |
| `PasswordRoutes.ConfirmedIffMeetsPolicy` | src/routes/password.routes.js:61-64 | The payload carries the confirmation exactly when `senha` is a string meeting the whole policy. |
| `PasswordRoutes.EmptyPasswordStopsAtPresenceGate` | src/routes/password.routes.js:29-34 | `""` is turned away as missing, with 400 and the "é obrigatório" message. On its own, the engine would report four messages for it. |

## Left out

- Console logging with ANSI colours (src/routes/password.routes.js:10-19, 48-58): output only. It prints the plaintext password but does not affect the response.
- The Express app in `src/server.js` is not part of this model: middleware, JSON body parsing, the health-check route and the listening port are framework plumbing and I/O.
- `src/middlewares/errorHandler.js` is not part of this model: it is an environment-dependent error-to-JSON translation. Errors raised before or around the handler end there and are not modelled. Such an error is answered with its own status code, or 500 when it has none. Malformed JSON gets the body parser's 400. A request whose body cannot be destructured (src/routes/password.routes.js:26) gets 500.
- Length counts Dafny characters, not UTF-16 code units as JavaScript's `s.length` does. The two agree except on characters outside the Basic Multilingual Plane.
- Strings that contain an unpaired surrogate have no counterpart in the model, because a Dafny `char` cannot hold a surrogate code point. `JSON.parse` accepts such a string, for example `"\ud800Abcdef1!"`. In JavaScript the lone code unit counts 1 toward the length and matches none of the three character classes.
- The regular expressions are modelled as "some character is in the class" scans, not through a regular-expression engine. `\d` without the `u` flag matches ASCII digits only, and the model follows that.
- JavaScript numbers are reduced to whether they are falsy (0, -0, NaN), since truthiness is all the handler looks at.
- The `typeof s === 'string'` conjunct inside the `minLength` check is always true once the engine's type gate has passed, so the check is modelled as length only.
- The route's comment at src/routes/password.routes.js:66 says the answer is always 200 when the body is valid. The gates at lines 29-42 answer 400, and the model follows the code.
- The tests that read `passwordRegex` and `errorMessages` as module exports describe an API that the module does not export. Only the behaviour those tests check is modelled: the special character set and the messages.
