/**
  The command-line argument store: ParseParameters turns the argument vector
  into a map from flag key to value, and GetArg, GetIntArg and GetBoolArg read
  it with a caller-supplied default. The map is an explicit value here rather
  than process-wide state, so every parse starts from nothing.
*/
module ArgStore {
  import opened Wrappers
  import Decimal

  /** Parsed flags: key (the token's text before its first "=", with a
      leading "--" losing one dash, so only a token that starts with three
      dashes leaves a "--" key) to value; a flag given without "=" stores the
      empty value. */
  type Args = map<string, string>

  /** One flag token read as its key and value. */
  datatype Flag = Flag(key: string, value: string)

  // The functions of this module carry no postconditions, so that they
  // unfold cheaply on literal arguments; their properties are lemmas.

  /** The position of the first '=' in s, or |s| when there is none. */
  function FindEq(s: string): nat {
    if s == [] || s[0] == '=' then 0 else 1 + FindEq(s[1..])
  }

  /** FindEq finds the first '=', or runs to the end when there is none. */
  lemma {:induction false} FindEqFirst(s: string)
    ensures FindEq(s) <= |s|
    ensures forall j :: 0 <= j < FindEq(s) ==> s[j] != '='
    ensures FindEq(s) < |s| ==> s[FindEq(s)] == '='
    decreases |s|
  {
    if s != [] && s[0] != '=' {
      FindEqFirst(s[1..]);
      forall j | 0 < j < FindEq(s) ensures s[j] != '=' {
        assert s[j] == s[1..][j - 1];
      }
    }
  }

  /** A text free of '=' is skipped whole when looking for the first '='. */
  lemma {:induction false} FindEqSkips(k: string, rest: string)
    requires '=' !in k
    ensures FindEq(k + rest) == |k| + FindEq(rest)
    decreases |k|
  {
    if k != [] {
      assert k[0] in k;
      assert (k + rest)[0] == k[0] != '=';
      assert (k + rest)[1..] == k[1..] + rest;
      assert '=' !in k[1..] by {
        forall c | c in k[1..] ensures c in k { }
      }
      FindEqSkips(k[1..], rest);
    } else {
      assert k + rest == rest;
    }
  }

  /** A flag name with a leading "--" rewritten to "-". */
  function Canonical(name: string): string {
    if |name| >= 2 && name[..2] == "--" then name[1..] else name
  }

  /** A key of the forms the tests write: a leading "-", a second character
      that is not '-', and no '='. Not every stored key has this shape: a
      token "---X" is stored under "--X". */
  predicate IsKey(k: string) {
    |k| >= 1 && k[0] == '-' && (|k| >= 2 ==> k[1] != '-') && '=' !in k
  }

  /** The flag a token denotes: the text before the first '=' (in canonical
      form) is the key and the text after it the value; a token that does not
      start with '-' is no flag. */
  function ReadToken(tok: string): Option<Flag> {
    FindEqFirst(tok);
    var i := FindEq(tok);
    var name := tok[..i];
    if name == [] || name[0] != '-' then None
    else Some(Flag(Canonical(name), if i < |tok| then tok[i + 1..] else []))
  }

  /** A token is a flag just when it starts with '-'; the key then starts
      with '-' and holds no '=', and the token is the key, possibly with one
      more leading '-', followed by "=" and the value or, for the empty
      value, by nothing. */
  lemma ReadTokenShape(tok: string)
    ensures ReadToken(tok).Some? <==> |tok| >= 1 && tok[0] == '-'
    ensures ReadToken(tok).Some? ==> var f := ReadToken(tok).value;
      && |f.key| >= 1 && f.key[0] == '-' && '=' !in f.key
      && (|| tok == f.key + "=" + f.value
          || tok == "-" + f.key + "=" + f.value
          || ('=' !in tok && f.value == [] && (tok == f.key || tok == "-" + f.key)))
  {
    FindEqFirst(tok);
    var i := FindEq(tok);
    var name := tok[..i];
    if name != [] && name[0] == '-' {
      assert '=' !in name by {
        forall j | 0 <= j < |name| ensures name[j] != '=' {
          assert name[j] == tok[j];
        }
      }
      var value := if i < |tok| then tok[i + 1..] else [];
      assert i < |tok| ==> tok == name + "=" + value;
      assert i == |tok| ==> tok == name;
      if |name| >= 2 && name[..2] == "--" {
        assert name == "-" + name[1..];
        assert '=' !in name[1..] by {
          forall c | c in name[1..] ensures c in name { }
        }
      }
    }
  }

  /** tok is a flag token whose key is k. */
  predicate HasKey(tok: string, k: string) {
    ReadToken(tok).Some? && ReadToken(tok).value.key == k
  }

  /** The value a flag token carries. */
  function ValueOf(tok: string): string
    requires ReadToken(tok).Some?
  {
    ReadToken(tok).value.value
  }

  /** ts[i] is the last token of ts with key k. */
  ghost predicate IsLast(ts: seq<string>, k: string, i: int) {
    && 0 <= i < |ts|
    && HasKey(ts[i], k)
    && forall j :: i < j < |ts| ==> !HasKey(ts[j], k)
  }

  /** m with the flag of token t entered, if t is a flag token: its key now
      maps to its value, and nothing else changes. */
  function Enter(m: Args, t: string): Args {
    match ReadToken(t)
    case None => m
    case Some(f) => m[f.key := f.value]
  }

  /** Entering a token adds its key with its value and changes nothing else. */
  lemma EnterChanges(m: Args, t: string)
    ensures forall k :: k in Enter(m, t) <==> k in m || HasKey(t, k)
    ensures forall k :: HasKey(t, k) ==> Enter(m, t)[k] == ValueOf(t)
    ensures forall k :: k in m && !HasKey(t, k) ==> Enter(m, t)[k] == m[k]
  {
  }

  /** The flags of ts, entered left to right so that a later token overwrites
      an earlier one with the same key. */
  function Store(ts: seq<string>): Args
    decreases |ts|
  {
    if ts == [] then map[] else Enter(Store(ts[..|ts| - 1]), ts[|ts| - 1])
  }

  /** The store holds a key just when some token has it, and then the value
      of the last such token. */
  lemma {:induction false} StoreContents(ts: seq<string>)
    ensures forall k :: k in Store(ts) <==> exists i :: 0 <= i < |ts| && HasKey(ts[i], k)
    ensures forall k, i :: IsLast(ts, k, i) ==> k in Store(ts) && Store(ts)[k] == ValueOf(ts[i])
    decreases |ts|
  {
    if ts != [] {
      var prefix := ts[..|ts| - 1];
      StoreContents(prefix);
      StoreStep(prefix, ts[|ts| - 1], Store(prefix));
      assert prefix + [ts[|ts| - 1]] == ts;
    }
  }

  /** Entering one more token keeps Store's contract. */
  lemma StoreStep(prefix: seq<string>, t: string, m: Args)
    requires forall k :: k in m <==> exists i :: 0 <= i < |prefix| && HasKey(prefix[i], k)
    requires forall k, i :: IsLast(prefix, k, i) ==> k in m && m[k] == ValueOf(prefix[i])
    ensures var ts := prefix + [t]; var m' := Enter(m, t);
      && (forall k :: k in m' <==> exists i :: 0 <= i < |ts| && HasKey(ts[i], k))
      && (forall k, i :: IsLast(ts, k, i) ==> k in m' && m'[k] == ValueOf(ts[i]))
  {
    var ts := prefix + [t];
    var m' := Enter(m, t);
    EnterChanges(m, t);
    assert ts[|prefix|] == t;
    forall k
      ensures k in m' <==> exists i :: 0 <= i < |ts| && HasKey(ts[i], k)
    {
      if k in m' && !HasKey(t, k) {
        var i :| 0 <= i < |prefix| && HasKey(prefix[i], k);
        assert ts[i] == prefix[i];
      }
      if exists i :: 0 <= i < |ts| && HasKey(ts[i], k) {
        var i :| 0 <= i < |ts| && HasKey(ts[i], k);
        if i < |prefix| {
          assert ts[i] == prefix[i];
        }
      }
    }
    forall k, i | IsLast(ts, k, i)
      ensures k in m' && m'[k] == ValueOf(ts[i])
    {
      if i < |prefix| {
        assert ts[i] == prefix[i];
        assert !HasKey(ts[|ts| - 1], k);
        assert IsLast(prefix, k, i) by {
          forall j | i < j < |prefix| ensures !HasKey(prefix[j], k) {
            assert prefix[j] == ts[j];
          }
        }
      }
    }
  }

  /** No token of argv after the program name has key k. */
  ghost predicate Absent(argv: seq<string>, k: string) {
    forall i :: 1 <= i < |argv| ==> !HasKey(argv[i], k)
  }

  /** argv[i] is the last token of argv after the program name with key k. */
  ghost predicate LastSupplied(argv: seq<string>, k: string, i: int) {
    && 1 <= i < |argv|
    && HasKey(argv[i], k)
    && forall j :: i < j < |argv| ==> !HasKey(argv[j], k)
  }

  /** The flags of an argument vector; the first element, the program name,
      is not read. */
  function ParseParameters(argv: seq<string>): Args {
    if argv == [] then map[] else Store(argv[1..])
  }

  /** The parsed flags hold a key just when a token after the program name
      has it, and then the value of the last such token. */
  lemma ParsedFlags(argv: seq<string>)
    ensures forall k :: k in ParseParameters(argv) <==> exists i :: 1 <= i < |argv| && HasKey(argv[i], k)
    ensures forall k, i :: LastSupplied(argv, k, i) ==>
      k in ParseParameters(argv) && ParseParameters(argv)[k] == ValueOf(argv[i])
  {
    if argv != [] {
      var ts := argv[1..];
      var m := Store(ts);
      StoreContents(ts);
      forall k ensures k in m <==> exists i :: 1 <= i < |argv| && HasKey(argv[i], k) {
        if k in m {
          var i :| 0 <= i < |ts| && HasKey(ts[i], k);
          assert argv[i + 1] == ts[i];
        }
        if exists i :: 1 <= i < |argv| && HasKey(argv[i], k) {
          var i :| 1 <= i < |argv| && HasKey(argv[i], k);
          assert ts[i - 1] == argv[i];
        }
      }
      forall k, i | LastSupplied(argv, k, i) ensures IsLast(ts, k, i - 1) {
        assert ts[i - 1] == argv[i];
        forall j | i - 1 < j < |ts| ensures !HasKey(ts[j], k) {
          assert ts[j] == argv[j + 1];
        }
      }
    }
  }

  /** The string value of a flag: its stored value when present (empty for a
      bare flag), the default when absent. */
  function GetArg(m: Args, key: string, default: string): string {
    if key in m then m[key] else default
  }

  /** The integer value of a flag: its stored value read as a number when
      present (0 for a bare flag or a non-numeric value), the default when absent. */
  function GetIntArg(m: Args, key: string, default: int): int {
    if key in m then Decimal.ReadInt(m[key]) else default
  }

  /** The key "-noX" that negates the key "-X". */
  function NegatedKey(key: string): string
    requires |key| >= 1
  {
    "-no" + key[1..]
  }

  /** The boolean value of a flag. A present flag is true unless its value is
      "0". Only when the flag itself is absent is its negation consulted:
      "-noX" is false unless its value is "0". Otherwise the default. */
  function GetBoolArg(m: Args, key: string, default: bool): bool {
    if key in m then m[key] != "0"
    else if |key| >= 1 && key[0] == '-' && NegatedKey(key) in m then m[NegatedKey(key)] == "0"
    else default
  }

  // Properties of the accessors over a parsed argument vector.

  /** Lookup is by exact key: a flag no token supplies reads as the default,
      as a string and as an integer, even when its "-no" form is supplied. */
  lemma AbsentGivesDefault(argv: seq<string>, k: string, ds: string, dn: int)
    requires Absent(argv, k)
    ensures GetArg(ParseParameters(argv), k, ds) == ds
    ensures GetIntArg(ParseParameters(argv), k, dn) == dn
  {
    ParsedFlags(argv);
  }

  /** A boolean flag that is supplied neither directly nor negated reads as
      the default. */
  lemma AbsentBoolGivesDefault(argv: seq<string>, k: string, d: bool)
    requires Absent(argv, k)
    requires |k| >= 1 && k[0] == '-' ==> Absent(argv, NegatedKey(k))
    ensures GetBoolArg(ParseParameters(argv), k, d) == d
  {
    ParsedFlags(argv);
  }

  /** A supplied flag reads as the value of its last token whatever the
      default, and as a boolean it is decided by that value alone, whatever
      negations are supplied. */
  lemma SuppliedValue(argv: seq<string>, k: string, i: int, ds: string, dn: int, db: bool)
    requires LastSupplied(argv, k, i)
    ensures GetArg(ParseParameters(argv), k, ds) == ValueOf(argv[i])
    ensures GetIntArg(ParseParameters(argv), k, dn) == Decimal.ReadInt(ValueOf(argv[i]))
    ensures GetBoolArg(ParseParameters(argv), k, db) == (ValueOf(argv[i]) != "0")
  {
    ParsedFlags(argv);
  }

  /** With "-X" absent, its last "-noX" token decides: false unless that
      token's value is "0", whatever the default. */
  lemma NegatedValue(argv: seq<string>, k: string, i: int, d: bool)
    requires |k| >= 1 && k[0] == '-'
    requires Absent(argv, k)
    requires LastSupplied(argv, NegatedKey(k), i)
    ensures GetBoolArg(ParseParameters(argv), k, d) == (ValueOf(argv[i]) == "0")
  {
    ParsedFlags(argv);
  }

  /** A flag and its negation given in either order: the flag decides. */
  lemma PositiveWinsEitherOrder(p: string, a: string, b: string, k: string, d: bool)
    requires |k| >= 1 && k[0] == '-'
    requires HasKey(a, k) && HasKey(b, NegatedKey(k))
    ensures GetBoolArg(ParseParameters([p, a, b]), k, d) == (ValueOf(a) != "0")
    ensures GetBoolArg(ParseParameters([p, b, a]), k, d) == (ValueOf(a) != "0")
  {
    assert |NegatedKey(k)| == |k| + 2;
    ParsedFlags([p, a, b]);
    ParsedFlags([p, b, a]);
    assert LastSupplied([p, a, b], k, 1);
    assert LastSupplied([p, b, a], k, 2);
  }

  /** A name starting with '-' and free of '=', followed by "=" and a value,
      reads as the canonical name with that value. */
  lemma ReadNameValue(name: string, v: string)
    requires |name| >= 1 && name[0] == '-' && '=' !in name
    ensures ReadToken(name + "=" + v) == Some(Flag(Canonical(name), v))
  {
    var tok := name + "=" + v;
    assert tok == name + ("=" + v);
    FindEqSkips(name, "=" + v);
    assert tok[..|name|] == name;
    assert tok[|name| + 1..] == v;
  }

  /** A name starting with '-' and free of '=' on its own reads as the
      canonical name with the empty value. */
  lemma ReadNameBare(name: string)
    requires |name| >= 1 && name[0] == '-' && '=' !in name
    ensures ReadToken(name) == Some(Flag(Canonical(name), []))
  {
    FindEqSkips(name, []);
    assert name + [] == name;
  }

  /** The token forms of a key k with value v: "k=v", "--k=v" (for k = "-X"),
      and the bare "k" and "--k" with the empty value. */
  lemma ReadFlagForms(k: string, v: string)
    requires IsKey(k)
    ensures ReadToken(k + "=" + v) == Some(Flag(k, v))
    ensures ReadToken("-" + k + "=" + v) == Some(Flag(k, v))
    ensures ReadToken(k) == Some(Flag(k, []))
    ensures ReadToken("-" + k) == Some(Flag(k, []))
  {
    var dk := "-" + k;
    assert dk[1..] == k;
    assert '=' !in dk by {
      forall c | c in dk ensures c == '-' || c in k { }
    }
    ReadNameValue(k, v);
    ReadNameValue(dk, v);
    ReadNameBare(k);
    ReadNameBare(dk);
  }

  /** "--X..." reads exactly as "-X...". */
  lemma ReadDoubleDash(t: string)
    requires |t| >= 1 && t[0] == '-'
    requires |t| >= 2 ==> t[1] != '-'
    ensures ReadToken("-" + t) == ReadToken(t)
  {
    FindEqFirst(t);
    var i := FindEq(t);
    var name := t[..i];
    var rest := t[i..];
    assert t == name + rest;
    assert "-" + t == ("-" + name) + rest;
    assert '=' !in name by {
      forall j | 0 <= j < |name| ensures name[j] != '=' {
        assert name[j] == t[j];
      }
    }
    assert '=' !in "-" + name by {
      forall c | c in "-" + name ensures c == '-' || c in name { }
    }
    assert ("-" + name)[1..] == name;
    assert Canonical("-" + name) == name == Canonical(name);
    if rest == [] {
      ReadNameBare(name);
      ReadNameBare("-" + name);
    } else {
      var v := rest[1..];
      assert rest == "=" + v;
      assert t == name + "=" + v;
      assert "-" + t == "-" + name + "=" + v;
      ReadNameValue(name, v);
      ReadNameValue("-" + name, v);
    }
  }

  /** Tokens that read alike build the same store. */
  lemma {:induction false} StoreByReading(ts: seq<string>, us: seq<string>)
    requires |ts| == |us|
    requires forall i :: 0 <= i < |ts| ==> ReadToken(ts[i]) == ReadToken(us[i])
    ensures Store(ts) == Store(us)
    decreases |ts|
  {
    if ts != [] {
      StoreByReading(ts[..|ts| - 1], us[..|us| - 1]);
    }
  }

  /** Writing a flag token with a double dash parses to the same flags. */
  lemma DoubleDashNormalised(argv: seq<string>, i: int)
    requires 1 <= i < |argv|
    requires |argv[i]| >= 1 && argv[i][0] == '-'
    requires |argv[i]| >= 2 ==> argv[i][1] != '-'
    ensures ParseParameters(argv[i := "-" + argv[i]]) == ParseParameters(argv)
  {
    var argv' := argv[i := "-" + argv[i]];
    ReadDoubleDash(argv[i]);
    StoreByReading(argv'[1..], argv[1..]);
  }

  /** A bare "-X" or "--X" as the last token for "-X": the boolean reads
      true, the string reads empty and the integer reads 0, whatever the
      defaults. */
  lemma BareFlag(argv: seq<string>, k: string, i: int, ds: string, dn: int, db: bool)
    requires IsKey(k)
    requires 1 <= i < |argv| && (argv[i] == k || argv[i] == "-" + k)
    requires forall j :: i < j < |argv| ==> !HasKey(argv[j], k)
    ensures GetBoolArg(ParseParameters(argv), k, db)
    ensures GetArg(ParseParameters(argv), k, ds) == ""
    ensures GetIntArg(ParseParameters(argv), k, dn) == 0
  {
    ReadFlagForms(k, []);
    SuppliedValue(argv, k, i, ds, dn, db);
  }

  /** "-X=v" or "--X=v" as the last token for "-X": the string reads v
      exactly (also when v is empty), the boolean reads false just when v is
      "0", and the integer reads v as a number, whatever the defaults. */
  lemma FlagValue(argv: seq<string>, k: string, v: string, i: int, ds: string, dn: int, db: bool)
    requires IsKey(k)
    requires 1 <= i < |argv| && (argv[i] == k + "=" + v || argv[i] == "-" + k + "=" + v)
    requires forall j :: i < j < |argv| ==> !HasKey(argv[j], k)
    ensures GetArg(ParseParameters(argv), k, ds) == v
    ensures GetBoolArg(ParseParameters(argv), k, db) == (v != "0")
    ensures GetIntArg(ParseParameters(argv), k, dn) == Decimal.ReadInt(v)
  {
    ReadFlagForms(k, v);
    SuppliedValue(argv, k, i, ds, dn, db);
  }

  /** A decimal numeral as the last value for "-X" reads as its number,
      whatever the default. */
  lemma DecimalFlagValue(argv: seq<string>, k: string, n: nat, i: int, dn: int)
    requires IsKey(k)
    requires 1 <= i < |argv|
    requires argv[i] == k + "=" + Decimal.DecimalString(n) || argv[i] == "-" + k + "=" + Decimal.DecimalString(n)
    requires forall j :: i < j < |argv| ==> !HasKey(argv[j], k)
    ensures GetIntArg(ParseParameters(argv), k, dn) == n
  {
    FlagValue(argv, k, Decimal.DecimalString(n), i, "", dn, false);
    Decimal.ReadDecimal(n);
  }

  /** The negation of a key is itself a key. */
  lemma NegatedKeyIsKey(k: string)
    requires IsKey(k)
    ensures IsKey(NegatedKey(k))
  {
  }

  /** With "-X" absent, a last "-noX" or "--noX" token, bare or "=v": the
      boolean reads true just when the value is "0", whatever the default. */
  lemma NegatedFlag(argv: seq<string>, k: string, v: string, i: int, d: bool)
    requires IsKey(k)
    requires Absent(argv, k)
    requires 1 <= i < |argv|
    requires || argv[i] == NegatedKey(k) + "=" + v || argv[i] == "-" + NegatedKey(k) + "=" + v
             || (v == [] && (argv[i] == NegatedKey(k) || argv[i] == "-" + NegatedKey(k)))
    requires forall j :: i < j < |argv| ==> !HasKey(argv[j], NegatedKey(k))
    ensures GetBoolArg(ParseParameters(argv), k, d) == (v == "0")
  {
    NegatedKeyIsKey(k);
    ReadFlagForms(NegatedKey(k), v);
    NegatedValue(argv, k, i, d);
  }
}
