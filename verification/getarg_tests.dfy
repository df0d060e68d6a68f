/**
  The behaviour the getarg unit tests pin down. ResetArgs is the tests' own
  helper. The scenario lemmas state, for any keys and values, what the
  accessors read after ResetArgs on one or two tokens; each test lemma
  after them is one ResetArgs call of the suite with every check made on
  its result.
*/
module GetArgTests {
  import opened Wrappers
  import opened Tokenize
  import opened ArgStore
  import Decimal

  /** The dummy program name the helper puts in front of the tokens. */
  const ProgramName := "testbitcoin"

  /** Parse the tokens of s, split at runs of white space, after the dummy
      program name. */
  function ResetArgs(s: string): Args {
    ParseParameters([ProgramName] + Split(s))
  }

  /** The empty string sets no flag: it splits into one empty token, which is
      not a flag. */
  lemma ResetArgsEmpty()
    ensures ResetArgs("") == map[]
  {
    var argv := [ProgramName, ""];
    assert [ProgramName] + Split("") == argv;
    assert argv[1..] == [""];
    assert [""][..0] == [];
    assert ReadToken("") == None;
  }

  /** The helper on blank-separated tokens parses exactly those tokens. */
  lemma ResetArgsJoin(ts: seq<string>)
    requires Splittable(ts)
    ensures ResetArgs(Join(ts)) == ParseParameters([ProgramName] + ts)
  {
    SplitJoin(ts);
  }

  /** A flag token, "-X", "--X", "-X=v" or "--X=v". */
  predicate IsFlagToken(t: string) {
    t != [] && NoSpace(t) && ReadToken(t).Some?
  }

  // Scenarios: what the accessors read after ResetArgs on one or two tokens.

  /** One token: its key reads as its value; another key with no negation in
      play reads as the default. */
  lemma ResetOneToken(t: string, k: string, q: string, ds: string, dn: int, db: bool)
    requires IsFlagToken(t) && HasKey(t, k)
    requires q != k && (|q| >= 1 && q[0] == '-' ==> NegatedKey(q) != k)
    ensures var m := ResetArgs(t);
      && GetArg(m, k, ds) == ValueOf(t)
      && GetIntArg(m, k, dn) == Decimal.ReadInt(ValueOf(t))
      && GetBoolArg(m, k, db) == (ValueOf(t) != "0")
      && GetArg(m, q, ds) == ds
      && GetIntArg(m, q, dn) == dn
      && GetBoolArg(m, q, db) == db
  {
    var argv := [ProgramName, t];
    SplitWord(t);
    assert [ProgramName] + Split(t) == argv;
    SuppliedValue(argv, k, 1, ds, dn, db);
    AbsentGivesDefault(argv, q, ds, dn);
    AbsentBoolGivesDefault(argv, q, db);
  }

  /** One negation token "-noX...": "-X" reads true just when its value is "0". */
  lemma ResetOneNegation(t: string, k: string, d: bool)
    requires |k| >= 1 && k[0] == '-'
    requires IsFlagToken(t) && HasKey(t, NegatedKey(k))
    ensures GetBoolArg(ResetArgs(t), k, d) == (ValueOf(t) == "0")
  {
    var argv := [ProgramName, t];
    SplitWord(t);
    assert [ProgramName] + Split(t) == argv;
    assert |NegatedKey(k)| == |k| + 2;
    NegatedValue(argv, k, 1, d);
  }

  /** Two tokens with different keys: each key holds its own token's value. */
  lemma ResetTwoTokens(a: string, b: string, ka: string, kb: string)
    requires IsFlagToken(a) && IsFlagToken(b) && HasKey(a, ka) && HasKey(b, kb) && ka != kb
    ensures var m := ResetArgs(a + " " + b);
      ka in m && m[ka] == ValueOf(a) && kb in m && m[kb] == ValueOf(b)
  {
    var argv := [ProgramName, a, b];
    SplitStep(a, b);
    SplitWord(b);
    assert [ProgramName] + Split(a + " " + b) == argv;
    ParsedFlags(argv);
    assert LastSupplied(argv, ka, 1);
    assert LastSupplied(argv, kb, 2);
  }

  /** A flag token and a negation token for the same flag, in either order:
      the flag's own value decides. */
  lemma ResetFlagAndNegation(a: string, b: string, k: string, d: bool)
    requires |k| >= 1 && k[0] == '-'
    requires IsFlagToken(a) && IsFlagToken(b) && HasKey(a, k) && HasKey(b, NegatedKey(k))
    ensures GetBoolArg(ResetArgs(a + " " + b), k, d) == (ValueOf(a) != "0")
    ensures GetBoolArg(ResetArgs(b + " " + a), k, d) == (ValueOf(a) != "0")
  {
    SplitStep(a, b);
    SplitWord(b);
    assert [ProgramName] + Split(a + " " + b) == [ProgramName, a, b];
    SplitStep(b, a);
    SplitWord(a);
    assert [ProgramName] + Split(b + " " + a) == [ProgramName, b, a];
    PositiveWinsEitherOrder(ProgramName, a, b, k, d);
  }

  // Tokens as the tests write them, and the same scenarios in those terms.

  /** The token with prefix p (empty, or a second dash), key k and, when
      present, value v: "k", "k=v", "-k" or "-k=v". */
  function Tok(p: string, k: string, v: Option<string>): string {
    match v
    case None => p + k
    case Some(x) => p + k + "=" + x
  }

  /** The value a written token carries: the empty value when it has none. */
  function Val(v: Option<string>): string {
    match v
    case None => []
    case Some(x) => x
  }

  /** The parts of a token the tests write. */
  predicate GoodTok(p: string, k: string, v: Option<string>) {
    && (p == "" || p == "-")
    && IsKey(k) && NoSpace(k)
    && (v.Some? ==> NoSpace(v.value))
  }

  /** White-space-free strings stay white-space free when concatenated. */
  lemma NoSpaceJoin(x: string, y: string)
    requires NoSpace(x) && NoSpace(y)
    ensures NoSpace(x + y)
  {
  }

  /** A written token is a flag token for its key, carrying its value. */
  lemma TokFacts(p: string, k: string, v: Option<string>)
    requires GoodTok(p, k, v)
    ensures IsFlagToken(Tok(p, k, v)) && HasKey(Tok(p, k, v), k) && ValueOf(Tok(p, k, v)) == Val(v)
  {
    ReadFlagForms(k, Val(v));
    assert "" + k == k;
    NoSpaceJoin(p, k);
    if v.Some? {
      assert p + k + "=" + v.value == (p + k) + "=" + v.value;
      NoSpaceJoin(p + k, "=");
      NoSpaceJoin(p + k + "=", v.value);
    }
  }

  /** ResetOneToken for a written token. */
  lemma ResetOne(p: string, k: string, v: Option<string>, q: string, ds: string, dn: int, db: bool)
    requires GoodTok(p, k, v)
    requires q != k && (|q| >= 1 && q[0] == '-' ==> NegatedKey(q) != k)
    ensures var m := ResetArgs(Tok(p, k, v));
      && GetArg(m, k, ds) == Val(v)
      && GetIntArg(m, k, dn) == Decimal.ReadInt(Val(v))
      && GetBoolArg(m, k, db) == (Val(v) != "0")
      && GetArg(m, q, ds) == ds
      && GetIntArg(m, q, dn) == dn
      && GetBoolArg(m, q, db) == db
  {
    TokFacts(p, k, v);
    ResetOneToken(Tok(p, k, v), k, q, ds, dn, db);
  }

  /** ResetOneNegation for a written negation token. */
  lemma ResetOneNeg(p: string, k: string, v: Option<string>, d: bool)
    requires |k| >= 1 && k[0] == '-'
    requires GoodTok(p, NegatedKey(k), v)
    ensures GetBoolArg(ResetArgs(Tok(p, NegatedKey(k), v)), k, d) == (Val(v) == "0")
  {
    TokFacts(p, NegatedKey(k), v);
    ResetOneNegation(Tok(p, NegatedKey(k), v), k, d);
  }

  /** ResetTwoTokens for two written tokens. */
  lemma ResetTwo(pa: string, ka: string, va: Option<string>, pb: string, kb: string, vb: Option<string>)
    requires GoodTok(pa, ka, va) && GoodTok(pb, kb, vb) && ka != kb
    ensures var m := ResetArgs(Tok(pa, ka, va) + " " + Tok(pb, kb, vb));
      ka in m && m[ka] == Val(va) && kb in m && m[kb] == Val(vb)
  {
    TokFacts(pa, ka, va);
    TokFacts(pb, kb, vb);
    ResetTwoTokens(Tok(pa, ka, va), Tok(pb, kb, vb), ka, kb);
  }

  /** ResetFlagAndNegation for a written flag and a written negation of it. */
  lemma ResetFlagAndNeg(pa: string, va: Option<string>, pb: string, vb: Option<string>, k: string, d: bool)
    requires |k| >= 1 && k[0] == '-'
    requires GoodTok(pa, k, va) && GoodTok(pb, NegatedKey(k), vb)
    ensures GetBoolArg(ResetArgs(Tok(pa, k, va) + " " + Tok(pb, NegatedKey(k), vb)), k, d) == (Val(va) != "0")
    ensures GetBoolArg(ResetArgs(Tok(pb, NegatedKey(k), vb) + " " + Tok(pa, k, va)), k, d) == (Val(va) != "0")
  {
    TokFacts(pa, k, va);
    TokFacts(pb, NegatedKey(k), vb);
    ResetFlagAndNegation(Tok(pa, k, va), Tok(pb, NegatedKey(k), vb), k, d);
  }

  /** The integer readings of the values the tests use. */
  lemma Numerals()
    ensures Decimal.ReadInt("1") == 1
    ensures Decimal.ReadInt("11") == 11
    ensures Decimal.ReadInt("12") == 12
    ensures Decimal.ReadInt("NaN") == 0
    ensures Decimal.ReadInt("NotANumber") == 0
  {
    Decimal.ReadNonNumeric("NaN");
    Decimal.ReadNonNumeric("NotANumber");
    Decimal.ReadDecimal(1);
    Decimal.ReadDecimal(11);
    Decimal.ReadDecimal(12);
    assert Decimal.DecimalString(11) == "11";
    assert Decimal.DecimalString(12) == "12";
  }

  // boolarg

  lemma BoolArgBare()
    ensures var m := ResetArgs("-FRIC");
      && GetBoolArg(m, "-FRIC", false) && GetBoolArg(m, "-FRIC", true)
      && !GetBoolArg(m, "-fo", false) && GetBoolArg(m, "-fo", true)
      && !GetBoolArg(m, "-FRICo", false) && GetBoolArg(m, "-FRICo", true)
  {
    assert "-FRIC" == Tok("", "-FRIC", None);
    ResetOne("", "-FRIC", None, "-fo", "", 0, false);
    ResetOne("", "-FRIC", None, "-fo", "", 0, true);
    ResetOne("", "-FRIC", None, "-FRICo", "", 0, false);
    ResetOne("", "-FRIC", None, "-FRICo", "", 0, true);
  }

  lemma BoolArgZero()
    ensures var m := ResetArgs("-FRIC=0");
      !GetBoolArg(m, "-FRIC", false) && !GetBoolArg(m, "-FRIC", true)
  {
    assert "-FRIC=0" == Tok("", "-FRIC", Some("0"));
    ResetOne("", "-FRIC", Some("0"), "-fo", "", 0, false);
    ResetOne("", "-FRIC", Some("0"), "-fo", "", 0, true);
  }

  lemma BoolArgOne()
    ensures var m := ResetArgs("-FRIC=1");
      GetBoolArg(m, "-FRIC", false) && GetBoolArg(m, "-FRIC", true)
  {
    assert "-FRIC=1" == Tok("", "-FRIC", Some("1"));
    ResetOne("", "-FRIC", Some("1"), "-fo", "", 0, false);
    ResetOne("", "-FRIC", Some("1"), "-fo", "", 0, true);
  }

  lemma BoolArgNegated()
    ensures var m := ResetArgs("-noFRIC");
      !GetBoolArg(m, "-FRIC", false) && !GetBoolArg(m, "-FRIC", true)
  {
    assert "-noFRIC" == Tok("", NegatedKey("-FRIC"), None);
    ResetOneNeg("", "-FRIC", None, false);
    ResetOneNeg("", "-FRIC", None, true);
  }

  lemma BoolArgNegatedOne()
    ensures var m := ResetArgs("-noFRIC=1");
      !GetBoolArg(m, "-FRIC", false) && !GetBoolArg(m, "-FRIC", true)
  {
    assert "-noFRIC=1" == Tok("", NegatedKey("-FRIC"), Some("1"));
    ResetOneNeg("", "-FRIC", Some("1"), false);
    ResetOneNeg("", "-FRIC", Some("1"), true);
  }

  lemma BoolArgBothBare()
    ensures var m := ResetArgs("-FRIC -noFRIC");
      GetBoolArg(m, "-FRIC", false) && GetBoolArg(m, "-FRIC", true)
  {
    assert Tok("", "-FRIC", None) == "-FRIC";
    assert Tok("", NegatedKey("-FRIC"), None) == "-noFRIC";
    assert "-FRIC -noFRIC" == "-FRIC" + " " + "-noFRIC";
    ResetFlagAndNeg("", None, "", None, "-FRIC", false);
    ResetFlagAndNeg("", None, "", None, "-FRIC", true);
  }

  lemma BoolArgBothOne()
    ensures var m := ResetArgs("-FRIC=1 -noFRIC=1");
      GetBoolArg(m, "-FRIC", false) && GetBoolArg(m, "-FRIC", true)
  {
    assert Tok("", "-FRIC", Some("1")) == "-FRIC=1";
    assert Tok("", NegatedKey("-FRIC"), Some("1")) == "-noFRIC=1";
    assert "-FRIC=1 -noFRIC=1" == "-FRIC=1" + " " + "-noFRIC=1";
    ResetFlagAndNeg("", Some("1"), "", Some("1"), "-FRIC", false);
    ResetFlagAndNeg("", Some("1"), "", Some("1"), "-FRIC", true);
  }

  lemma BoolArgBothZero()
    ensures var m := ResetArgs("-FRIC=0 -noFRIC=0");
      !GetBoolArg(m, "-FRIC", false) && !GetBoolArg(m, "-FRIC", true)
  {
    assert Tok("", "-FRIC", Some("0")) == "-FRIC=0";
    assert Tok("", NegatedKey("-FRIC"), Some("0")) == "-noFRIC=0";
    assert "-FRIC=0 -noFRIC=0" == "-FRIC=0" + " " + "-noFRIC=0";
    ResetFlagAndNeg("", Some("0"), "", Some("0"), "-FRIC", false);
    ResetFlagAndNeg("", Some("0"), "", Some("0"), "-FRIC", true);
  }

  lemma BoolArgDoubleDashOne()
    ensures var m := ResetArgs("--FRIC=1");
      GetBoolArg(m, "-FRIC", false) && GetBoolArg(m, "-FRIC", true)
  {
    assert "--FRIC=1" == Tok("-", "-FRIC", Some("1"));
    ResetOne("-", "-FRIC", Some("1"), "-fo", "", 0, false);
    ResetOne("-", "-FRIC", Some("1"), "-fo", "", 0, true);
  }

  lemma BoolArgDoubleDashNegatedOne()
    ensures var m := ResetArgs("--noFRIC=1");
      !GetBoolArg(m, "-FRIC", false) && !GetBoolArg(m, "-FRIC", true)
  {
    assert "--noFRIC=1" == Tok("-", NegatedKey("-FRIC"), Some("1"));
    ResetOneNeg("-", "-FRIC", Some("1"), false);
    ResetOneNeg("-", "-FRIC", Some("1"), true);
  }

  // stringarg

  lemma StringArgEmpty()
    ensures var m := ResetArgs("");
      GetArg(m, "-FRIC", "") == "" && GetArg(m, "-FRIC", "eleven") == "eleven"
  {
    ResetArgsEmpty();
  }

  lemma StringArgBare()
    ensures var m := ResetArgs("-FRIC -bar");
      GetArg(m, "-FRIC", "") == "" && GetArg(m, "-FRIC", "eleven") == ""
  {
    assert Tok("", "-FRIC", None) == "-FRIC";
    assert Tok("", "-bar", None) == "-bar";
    assert "-FRIC -bar" == "-FRIC" + " " + "-bar";
    ResetTwo("", "-FRIC", None, "", "-bar", None);
  }

  lemma StringArgExplicitEmpty()
    ensures var m := ResetArgs("-FRIC=");
      GetArg(m, "-FRIC", "") == "" && GetArg(m, "-FRIC", "eleven") == ""
  {
    assert "-FRIC=" == Tok("", "-FRIC", Some(""));
    ResetOne("", "-FRIC", Some(""), "-fo", "", 0, false);
    ResetOne("", "-FRIC", Some(""), "-fo", "eleven", 0, false);
  }

  lemma StringArgNumeral()
    ensures var m := ResetArgs("-FRIC=11");
      GetArg(m, "-FRIC", "") == "11" && GetArg(m, "-FRIC", "eleven") == "11"
  {
    assert "-FRIC=11" == Tok("", "-FRIC", Some("11"));
    ResetOne("", "-FRIC", Some("11"), "-fo", "", 0, false);
    ResetOne("", "-FRIC", Some("11"), "-fo", "eleven", 0, false);
  }

  lemma StringArgWord()
    ensures var m := ResetArgs("-FRIC=eleven");
      GetArg(m, "-FRIC", "") == "eleven" && GetArg(m, "-FRIC", "eleven") == "eleven"
  {
    assert "-FRIC=eleven" == Tok("", "-FRIC", Some("eleven"));
    ResetOne("", "-FRIC", Some("eleven"), "-fo", "", 0, false);
    ResetOne("", "-FRIC", Some("eleven"), "-fo", "eleven", 0, false);
  }

  // intarg

  lemma IntArgEmpty()
    ensures var m := ResetArgs("");
      GetIntArg(m, "-FRIC", 11) == 11 && GetIntArg(m, "-FRIC", 0) == 0
  {
    ResetArgsEmpty();
  }

  lemma IntArgBare()
    ensures var m := ResetArgs("-FRIC -bar");
      GetIntArg(m, "-FRIC", 11) == 0 && GetIntArg(m, "-bar", 11) == 0
  {
    assert Tok("", "-FRIC", None) == "-FRIC";
    assert Tok("", "-bar", None) == "-bar";
    assert "-FRIC -bar" == "-FRIC" + " " + "-bar";
    ResetTwo("", "-FRIC", None, "", "-bar", None);
  }

  lemma IntArgNumerals()
    ensures var m := ResetArgs("-FRIC=11 -bar=12");
      GetIntArg(m, "-FRIC", 0) == 11 && GetIntArg(m, "-bar", 11) == 12
  {
    assert Tok("", "-FRIC", Some("11")) == "-FRIC=11";
    assert Tok("", "-bar", Some("12")) == "-bar=12";
    assert "-FRIC=11 -bar=12" == "-FRIC=11" + " " + "-bar=12";
    ResetTwo("", "-FRIC", Some("11"), "", "-bar", Some("12"));
    Numerals();
  }

  lemma IntArgNotNumbers()
    ensures var m := ResetArgs("-FRIC=NaN -bar=NotANumber");
      GetIntArg(m, "-FRIC", 1) == 0 && GetIntArg(m, "-bar", 11) == 0
  {
    assert Tok("", "-FRIC", Some("NaN")) == "-FRIC=NaN";
    assert Tok("", "-bar", Some("NotANumber")) == "-bar=NotANumber";
    assert "-FRIC=NaN -bar=NotANumber" == "-FRIC=NaN" + " " + "-bar=NotANumber";
    ResetTwo("", "-FRIC", Some("NaN"), "", "-bar", Some("NotANumber"));
    Numerals();
  }

  // doubledash

  lemma DoubleDashBare()
    ensures GetBoolArg(ResetArgs("--FRIC"), "-FRIC", false)
  {
    assert "--FRIC" == Tok("-", "-FRIC", None);
    ResetOne("-", "-FRIC", None, "-fo", "", 0, false);
  }

  lemma DoubleDashValues()
    ensures var m := ResetArgs("--FRIC=verbose --bar=1");
      GetArg(m, "-FRIC", "") == "verbose" && GetIntArg(m, "-bar", 0) == 1
  {
    assert Tok("-", "-FRIC", Some("verbose")) == "--FRIC=verbose";
    assert Tok("-", "-bar", Some("1")) == "--bar=1";
    assert "--FRIC=verbose --bar=1" == "--FRIC=verbose" + " " + "--bar=1";
    ResetTwo("-", "-FRIC", Some("verbose"), "-", "-bar", Some("1"));
    Numerals();
  }

  // boolargno

  lemma BoolArgNoZero()
    ensures var m := ResetArgs("-noFRIC=0");
      GetBoolArg(m, "-FRIC", false) && GetBoolArg(m, "-FRIC", true)
  {
    assert "-noFRIC=0" == Tok("", NegatedKey("-FRIC"), Some("0"));
    ResetOneNeg("", "-FRIC", Some("0"), false);
    ResetOneNeg("", "-FRIC", Some("0"), true);
  }

  lemma BoolArgNoDoubleDashAfter()
    ensures GetBoolArg(ResetArgs("-FRIC --noFRIC"), "-FRIC", false)
  {
    assert Tok("", "-FRIC", None) == "-FRIC";
    assert Tok("-", NegatedKey("-FRIC"), None) == "--noFRIC";
    assert "-FRIC --noFRIC" == "-FRIC" + " " + "--noFRIC";
    ResetFlagAndNeg("", None, "-", None, "-FRIC", false);
  }

  lemma BoolArgNoBefore()
    ensures GetBoolArg(ResetArgs("-noFRIC -FRIC"), "-FRIC", false)
  {
    assert Tok("", NegatedKey("-FRIC"), None) == "-noFRIC";
    assert Tok("", "-FRIC", None) == "-FRIC";
    assert "-noFRIC -FRIC" == "-noFRIC" + " " + "-FRIC";
    ResetFlagAndNeg("", None, "", None, "-FRIC", false);
  }
}
