# FriendsCoin command-line argument store, in Dafny

This project models FriendsCoin's command-line argument store as its unit
tests in `src/test/getarg_tests.cpp` exercise it. The test helper `ResetArgs`
splits a string at runs of white space, the way `boost::split` does with
`is_space` and `token_compress_on`, and puts the dummy program name
`testbitcoin` in front. It then hands the vector to `ParseParameters`, which
skips the program name and builds the flag map. The test file shows only
the calls, not that function's body. The model builds the map by these rules,
each either pinned by the tests or a choice of the model (marked):

- a leading `--` is rewritten to `-` (pinned by lines 78-86 and 135-140);
- a flag given without `=` stores the empty value (pinned by lines 28-31 and
  96-98);
- a token is split into key and value at its first `=` (model's choice: no
  test token holds two `=`);
- a token that does not start with `-` is not a flag (model's choice);
- a later token overwrites an earlier one with the same key (model's choice).

Three accessors read the map, each with a default. `GetArg` reads a string and
`GetIntArg` (the integer overload of `GetArg`) reads an integer. `GetBoolArg`
reads a boolean: a present flag is true unless its value is `"0"` (the tests
pin this for `""`, `"0"` and `"1"` only). For
`-X`, `GetBoolArg` consults the negation `-noX` only when `-X` itself is
absent, and then reads true only when its value is `"0"`. The string and
integer accessors never consult `-noX` (model's choice).

Modules:

- `Wrappers`: `Option`.
- `Tokenize`: the white-space split and its inverses, `Join` (single blanks) and `JoinRuns` (any white-space runs).
- `Decimal`: reading an integer value and writing a numeral.
- `ArgStore`: token reading, `ParseParameters` and the accessors, with the
  general properties as lemmas.
- `GetArgTests`: `ResetArgs`, scenario lemmas for any keys and values, and one
  lemma per `ResetArgs` call of the test file. Each of those lemmas states every
  check the test makes on that call's result.

In the C++ the parsed map is process-wide state. Here it is a value
(`ArgStore.Args`) that the accessors take as an argument. A call of
`GetBoolArg("-X")` with no default is modelled as the default `false`.

## Model

| member | source | states |
|---|---|---|
| Tokenize.Split | src/test/getarg_tests.cpp:13 | The compressed white-space split. It has no contract of its own; its properties are stated by SplitShape, SplitRun, SplitLeadingRun, SplitJoinRuns, SplitJoin and SplitWord. |
| GetArgTests.ResetArgs | src/test/getarg_tests.cpp:9-24 | The test helper: split, put the program name in front, parse. It has no contract of its own; ResetArgsEmpty, ResetArgsJoin and the scenario lemmas ResetOneToken, ResetTwoTokens, ResetOne and ResetTwo state what it yields. |
| ArgStore.ReadToken | src/test/getarg_tests.cpp:23 | Reading one token as an optional key and value. It has no contract of its own; ReadTokenShape, ReadNameValue, ReadNameBare, ReadFlagForms and ReadDoubleDash state its properties. |
| ArgStore.Store | src/test/getarg_tests.cpp:23 | Entering tokens one by one into the map. It has no contract of its own; StoreContents (against the last-wins description), StoreStep and StoreByReading state its properties. |
| ArgStore.ParseParameters | src/test/getarg_tests.cpp:23 | Parsing the argument vector after the program name. It has no contract of its own; ParsedFlags and DoubleDashNormalised state its properties. |
| ArgStore.GetArg | src/test/getarg_tests.cpp:92-110 | The string accessor. It has no contract of its own; AbsentGivesDefault, SuppliedValue, BareFlag and FlagValue state what it reads. |
| ArgStore.GetIntArg | src/test/getarg_tests.cpp:116-130 | The integer accessor. It has no contract of its own; AbsentGivesDefault, SuppliedValue, DecimalFlagValue and FlagValue state what it reads. |
| ArgStore.GetBoolArg | src/test/getarg_tests.cpp:28-86 | The boolean accessor with negation. It has no contract of its own; SuppliedValue, NegatedValue, AbsentBoolGivesDefault, PositiveWinsEitherOrder and NegatedFlag state what it reads in each of the three cases. |
| Decimal.ReadInt | src/test/getarg_tests.cpp:116-130 | Reading a flag value as an integer. It has no contract of its own; ReadAllDigits (against DigitsValue), ReadDecimal, ReadLeadingDigits and ReadNonNumeric state its properties. |
| Tokenize.SplitJoin | src/test/getarg_tests.cpp:12-13 | Splitting blank-separated tokens gives back exactly those tokens. This holds for any token list the split can produce: none holds white space, and only the first or last may be empty. |
| Tokenize.SplitShape | src/test/getarg_tests.cpp:12-13 | Every split result has at least one token and no token holds white space. Only the first or last token can be empty (compressed runs). A text starting with a non-space starts with a non-empty token. |
| Tokenize.SplitRun | src/test/getarg_tests.cpp:13 | A space-free word, any non-empty run of white space (blanks, tabs, line ends, mixed) and a text not starting with white space split into that word followed by the tokens of the text: the run is compressed into one separator and no other character is lost. With nothing after the run, the last token is empty. |
| Tokenize.SplitLeadingRun | src/test/getarg_tests.cpp:13 | A text opening with a run of white space splits into an empty first token followed by the tokens of what comes after the run. |
| Tokenize.SplitJoinRuns | src/test/getarg_tests.cpp:12-13 | Any token list the split can produce, written with any white-space runs between the tokens, splits back into exactly that list. |
| Tokenize.SplitStep | src/test/getarg_tests.cpp:12-13 | A space-free word, one blank and a text not starting with white space split into that word followed by the tokens of the text. |
| Tokenize.SplitWord | src/test/getarg_tests.cpp:12-13 | A text without white space is a single token. |
| Tokenize.WordIsLongestPrefix | src/test/getarg_tests.cpp:13 | The first word is the longest white-space-free prefix. If it does not reach the end, white space follows it. |
| Tokenize.SkipSpacesDropsRun | src/test/getarg_tests.cpp:13 | Skipping separators drops exactly the leading white-space run. What remains is a suffix that is empty or starts with a non-space. |
| Tokenize.WordBeforeSpace | src/test/getarg_tests.cpp:13 | Any white-space character after a space-free word ends the first word. |
| Tokenize.SkipRun | src/test/getarg_tests.cpp:13 | Skipping separators drops a whole white-space run and nothing of the text that follows it. |
| GetArgTests.ResetArgsEmpty | src/test/getarg_tests.cpp:9-24 | The empty string splits into one empty token, which is no flag, so the parsed map is empty. |
| GetArgTests.ResetArgsJoin | src/test/getarg_tests.cpp:9-24 | The helper on blank-joined splittable tokens parses exactly the program name followed by those tokens. |
| ArgStore.ReadTokenShape | src/test/getarg_tests.cpp:23 | A token is a flag exactly when it starts with `-`. The key then starts with `-` and holds no `=`. The token is the key, possibly with one extra leading dash, followed by `=value`, or by nothing when the value is empty. |
| ArgStore.ReadNameValue | src/test/getarg_tests.cpp:100-110 | A dash-led name without `=`, followed by `=` and any value (including empty), reads as that name in canonical form with exactly that value. |
| ArgStore.ReadNameBare | src/test/getarg_tests.cpp:28-31 | A dash-led name without `=` on its own reads as that name in canonical form with the empty value. |
| ArgStore.ReadFlagForms | src/test/getarg_tests.cpp:78-81 | For a canonical key, `k=v` and `-k=v` both read as key k with value v. `k` and `-k` both read as key k with the empty value. |
| ArgStore.ReadDoubleDash | src/test/getarg_tests.cpp:78-86 | `--X…` reads exactly as `-X…`, with the same key and value, or as no flag in both cases. |
| ArgStore.FindEqFirst | src/test/getarg_tests.cpp:41 | The split point is the first `=`, or the end of the token when it has none. |
| ArgStore.FindEqSkips | src/test/getarg_tests.cpp:41 | Text free of `=` is skipped whole when looking for the first `=`. |
| ArgStore.EnterChanges | src/test/getarg_tests.cpp:23 | Entering a token adds its key with its value, overwriting any earlier value, and leaves every other key unchanged. |
| ArgStore.StoreStep | src/test/getarg_tests.cpp:23 | Entering one more token keeps the last-wins description of the map. |
| ArgStore.StoreContents | src/test/getarg_tests.cpp:23 | The map holds a key exactly when some token has it, and then holds the value of the last such token. |
| ArgStore.ParsedFlags | src/test/getarg_tests.cpp:23 | The parsed map holds a key exactly when a token after the program name has it, and then holds the last such token's value. Nothing from any earlier parse remains. |
| ArgStore.StoreByReading | src/test/getarg_tests.cpp:23 | Token lists that read alike position by position build the same map. |
| ArgStore.DoubleDashNormalised | src/test/getarg_tests.cpp:135-140 | Adding a second leading dash to any flag token of the vector leaves the parsed map unchanged. |
| ArgStore.AbsentGivesDefault | src/test/getarg_tests.cpp:92-94 | A key no token supplies reads as the given default, both as a string and as an integer (also lines 116-118), even when its `-no` form is supplied. |
| ArgStore.AbsentBoolGivesDefault | src/test/getarg_tests.cpp:33-39 | A key supplied neither directly nor as its `-no` form reads as the boolean default. This is why `-fo` and `-FRICo` read false by default and true with default true. |
| ArgStore.SuppliedValue | src/test/getarg_tests.cpp:28-49 | A supplied flag reads as its last token's value, whatever the default. Its integer reading is that value read as a number. Its boolean is false exactly when the value is `"0"`, whatever negations are also supplied. The cited lines pin only the values `""`, `"0"` and `"1"`; the rule for other values is the model's choice. |
| ArgStore.NegatedValue | src/test/getarg_tests.cpp:52-60 | When `-X` is absent, its last `-noX` token decides: true exactly when that value is `"0"`, whatever the default. |
| ArgStore.PositiveWinsEitherOrder | src/test/getarg_tests.cpp:62-75 | When `-X` and `-noX` are both supplied, in either order, `-X`'s own value decides the boolean (also lines 160-164). |
| ArgStore.BareFlag | src/test/getarg_tests.cpp:28-31 | A bare `-X` or `--X` as the last token for `-X` reads true, the empty string and 0, whatever the defaults. |
| ArgStore.FlagValue | src/test/getarg_tests.cpp:100-110 | `-X=v` or `--X=v` as the last token for `-X` reads exactly v (empty too), false exactly when v is `"0"`, and v read as a number. |
| ArgStore.DecimalFlagValue | src/test/getarg_tests.cpp:124-126 | A decimal numeral of n as the last value of `-X` reads as n, whatever the default. |
| ArgStore.NegatedKeyIsKey | src/test/getarg_tests.cpp:51-52 | The negation `-noX` of a canonical key is itself a canonical key. |
| ArgStore.NegatedFlag | src/test/getarg_tests.cpp:145-158 | When `-X` is absent, a last `-noX` or `--noX` token, bare or with `=v`, makes `-X` read true exactly when v is `"0"`. |
| Decimal.DigitChar | src/test/getarg_tests.cpp:124-126 | The character written for a digit value is a digit that reads back as that value. |
| Decimal.DecimalString | src/test/getarg_tests.cpp:124-126 | A numeral is a nonempty run of digits. Its first digit is `0` only for the number 0. |
| Decimal.ReadDecimal | src/test/getarg_tests.cpp:124-126 | Reading the numeral of n gives n back. |
| Decimal.ReadAllDigits | src/test/getarg_tests.cpp:124-126 | A value made only of digits reads as the number those digits denote, most significant first. |
| Decimal.ReadFromAppend | src/test/getarg_tests.cpp:124-126 | One more trailing digit multiplies the reading by ten and adds that digit. |
| Decimal.ReadLeadingDigits | src/test/getarg_tests.cpp:124-130 | Reading stops at the first character that is not a digit, so what follows the leading digits does not change the result. |
| Decimal.ReadNonNumeric | src/test/getarg_tests.cpp:128-130 | A value that is empty or does not start with a digit reads as 0, not as the default. |
| GetArgTests.ResetOneToken | src/test/getarg_tests.cpp:28-49 | After the helper on one flag token, its key reads as its value (string, number, and boolean "not `"0"`). Any other key with no negation in play reads as each default. |
| GetArgTests.ResetOneNegation | src/test/getarg_tests.cpp:52-60 | After the helper on one `-noX` token, `-X` reads true exactly when that token's value is `"0"`. |
| GetArgTests.ResetTwoTokens | src/test/getarg_tests.cpp:96-98 | After the helper on two flag tokens with different keys, each key holds its own token's value. |
| GetArgTests.ResetFlagAndNegation | src/test/getarg_tests.cpp:62-75 | After the helper on `-X…` and `-noX…` in either order, `-X`'s own value decides the boolean. |
| GetArgTests.NoSpaceJoin | src/test/getarg_tests.cpp:13 | Concatenating two white-space-free texts gives a white-space-free text. |
| GetArgTests.TokFacts | src/test/getarg_tests.cpp:41-49 | A token written as `k`, `k=v`, `-k` or `-k=v` survives the split as one token. It is a flag token for k and carries v, or the empty value when it has none. |
| GetArgTests.ResetOne | src/test/getarg_tests.cpp:28-49 | The one-token scenario for a token written from key and value. |
| GetArgTests.ResetOneNeg | src/test/getarg_tests.cpp:52-60 | The one-negation scenario for a `-noX` token written from its value. |
| GetArgTests.ResetTwo | src/test/getarg_tests.cpp:120-126 | The two-token scenario for tokens written from keys and values. Each key holds its own value. |
| GetArgTests.ResetFlagAndNeg | src/test/getarg_tests.cpp:62-75 | The flag-and-negation scenario for written tokens, in both orders. |
| GetArgTests.Numerals | src/test/getarg_tests.cpp:124-140 | `"1"`, `"11"` and `"12"` read as 1, 11 and 12. `"NaN"` and `"NotANumber"` read as 0. |
| GetArgTests.BoolArgBare | src/test/getarg_tests.cpp:28-39 | After `-FRIC`: `-FRIC` is true with either default. `-fo` and `-FRICo` follow the default. |
| GetArgTests.BoolArgZero | src/test/getarg_tests.cpp:41-44 | After `-FRIC=0`: `-FRIC` is false with either default. |
| GetArgTests.BoolArgOne | src/test/getarg_tests.cpp:46-49 | After `-FRIC=1`: `-FRIC` is true with either default. |
| GetArgTests.BoolArgNegated | src/test/getarg_tests.cpp:52-55 | After `-noFRIC`: `-FRIC` is false with either default (also lines 145-148). |
| GetArgTests.BoolArgNegatedOne | src/test/getarg_tests.cpp:57-60 | After `-noFRIC=1`: `-FRIC` is false with either default (also lines 150-153). |
| GetArgTests.BoolArgBothBare | src/test/getarg_tests.cpp:62-65 | After `-FRIC -noFRIC`: `-FRIC` is true with either default. |
| GetArgTests.BoolArgBothOne | src/test/getarg_tests.cpp:67-70 | After `-FRIC=1 -noFRIC=1`: `-FRIC` is true with either default. |
| GetArgTests.BoolArgBothZero | src/test/getarg_tests.cpp:72-75 | After `-FRIC=0 -noFRIC=0`: `-FRIC` is false with either default. |
| GetArgTests.BoolArgDoubleDashOne | src/test/getarg_tests.cpp:78-81 | After `--FRIC=1`: `-FRIC` is true with either default. |
| GetArgTests.BoolArgDoubleDashNegatedOne | src/test/getarg_tests.cpp:83-86 | After `--noFRIC=1`: `-FRIC` is false with either default. |
| GetArgTests.StringArgEmpty | src/test/getarg_tests.cpp:92-94 | After the empty string, `-FRIC` reads as each string default. |
| GetArgTests.StringArgBare | src/test/getarg_tests.cpp:96-98 | After `-FRIC -bar`, `-FRIC` reads the empty string, not the default. |
| GetArgTests.StringArgExplicitEmpty | src/test/getarg_tests.cpp:100-102 | After `-FRIC=`, `-FRIC` reads the empty string, not the default. |
| GetArgTests.StringArgNumeral | src/test/getarg_tests.cpp:104-106 | After `-FRIC=11`, `-FRIC` reads `"11"` with either default. |
| GetArgTests.StringArgWord | src/test/getarg_tests.cpp:108-110 | After `-FRIC=eleven`, `-FRIC` reads `"eleven"` with either default. |
| GetArgTests.IntArgEmpty | src/test/getarg_tests.cpp:116-118 | After the empty string, `-FRIC` reads as each integer default. |
| GetArgTests.IntArgBare | src/test/getarg_tests.cpp:120-122 | After `-FRIC -bar`, both keys read 0, not the default 11. |
| GetArgTests.IntArgNumerals | src/test/getarg_tests.cpp:124-126 | After `-FRIC=11 -bar=12`, the keys read 11 and 12. |
| GetArgTests.IntArgNotNumbers | src/test/getarg_tests.cpp:128-130 | After `-FRIC=NaN -bar=NotANumber`, both keys read 0, not their defaults. |
| GetArgTests.DoubleDashBare | src/test/getarg_tests.cpp:135-136 | After `--FRIC`, `-FRIC` is true. |
| GetArgTests.DoubleDashValues | src/test/getarg_tests.cpp:138-140 | After `--FRIC=verbose --bar=1`, `-FRIC` reads `"verbose"` and `-bar` reads 1. |
| GetArgTests.BoolArgNoZero | src/test/getarg_tests.cpp:155-158 | After `-noFRIC=0`, `-FRIC` is true with either default. |
| GetArgTests.BoolArgNoDoubleDashAfter | src/test/getarg_tests.cpp:160-161 | After `-FRIC --noFRIC`, `-FRIC` is true. |
| GetArgTests.BoolArgNoBefore | src/test/getarg_tests.cpp:163-164 | After `-noFRIC -FRIC`, `-FRIC` is true. |

## Left out

- The Boost test framework and the conversion of the token vector to a `char*` array (lines 18-21) are not modelled. The model passes the tokens themselves.
- Process-wide state is not modelled. The parsed map is an explicit value, so parsing twice with the same input gives the same map by construction. `ArgStore.ParsedFlags` states that nothing from an earlier parse survives.
- `util.cpp`, which defines `ParseParameters`, `GetArg` and `GetBoolArg`, is not part of this model. The definitions here follow the behaviour the tests pin, and the model's own choices listed below where the tests leave a choice open.
- Choices the tests do not pin:
  - Key and value are split at the first `=`, so a later `=` belongs to the value.
  - A token that does not start with `-` is ignored.
  - For a repeated key, the last token wins.
  - `GetBoolArg` reads any present value other than `"0"` as true.
  - `---X` becomes `--X`, because only one leading dash is removed.
  - `-noX` is resolved only in `GetBoolArg`. `GetArg` and `GetIntArg` of `-X` do not see it, and return their defaults when `-X` is absent (`ArgStore.AbsentGivesDefault`). The comment at line 51 of the test file ("auto-map -nosomething to !-something") could also be read as parse-time mapping into a `-X` entry, which would give the string and integer accessors a value; the tests read only booleans after a negation.
  - Integers are read from the leading run of decimal digits, in the style of `atoi`; how the program itself converts the value is not shown.
- A flag with no value and a flag with `=` and an empty value are stored alike, as the empty value. None of the accessors can tell them apart.
- Decimal.ReadInt: reads only an unsigned run of leading decimal digits, with no bound. Leading white space, signs and overflow, as an `atoi`-style conversion would handle them, are not modelled. The tests pin only all-digit and letter-initial values.
- Configuration files, multi-valued arguments and other parts of the argument API are not modelled. No test exercises them.
