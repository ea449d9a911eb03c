/** Typed inputs and outputs of an action (actions/core/src/io.rs): the scalar
    parsers (`FromInput`), the scalar formatters (`ToOutput`), the `Option`
    adapter over both, and the environment resolver (`FromInputEnv`), whose
    required and optional forms are one function with a `required` flag. */
module Io {
  import opened Wrappers
  import opened Strings
  import Decimal

  /** `IoError`: the parameter name, or a parse message. */
  datatype IoError = MissingRequired(name: string) | ParseError(msg: string)

  /** The scalar types with a parser and a formatter: `String`, `bool` and the
      four integer types. */
  datatype ScalarKind = Text | Boolean | I32 | U32 | I64 | U64

  /** A value of one of the scalar types. */
  datatype Scalar = StrVal(s: string) | BoolVal(b: bool) | IntVal(n: int)

  predicate IsInteger(k: ScalarKind) {
    k.I32? || k.U32? || k.I64? || k.U64?
  }

  function MinOf(k: ScalarKind): (min: int)
    requires IsInteger(k)
  {
    match k
    case I32 => -0x8000_0000
    case I64 => -0x8000_0000_0000_0000
    case _ => 0
  }

  function MaxOf(k: ScalarKind): (max: int)
    requires IsInteger(k)
  {
    match k
    case I32 => 0x7FFF_FFFF
    case U32 => 0xFFFF_FFFF
    case I64 => 0x7FFF_FFFF_FFFF_FFFF
    case _ => 0xFFFF_FFFF_FFFF_FFFF
  }

  /** `v` is a value of type `k`: integers must lie in the type's range. */
  predicate HasKind(v: Scalar, k: ScalarKind) {
    match k
    case Text => v.StrVal?
    case Boolean => v.BoolVal?
    case _ => v.IntVal? && MinOf(k) <= v.n <= MaxOf(k)
  }

  // ---------------------------------------------------------------------------
  // Scalar parsers (`FromInput`)

  /** `bool::from_input`: the lower-cased text must be one of seven spellings. */
  function ParseBool(s: string): (r: Result<bool, IoError>)
    ensures s == [] ==> r == Ok(false)
    ensures r.Ok? ==> |s| <= 5
    ensures r.Err? ==> r.error == ParseError("Cannot parse '" + s + "' as bool")
  {
    var l := Lower(s);
    if l == "true" || l == "1" || l == "yes" then Ok(true)
    else if l == "false" || l == "0" || l == "no" || l == "" then Ok(false)
    else Err(ParseError("Cannot parse '" + s + "' as bool"))
  }

  /** `from_input` of an integer type: `str::parse`, with the error's text as
      the message. */
  function ParseInteger(k: ScalarKind, s: string): (r: Result<int, IoError>)
    requires IsInteger(k)
    ensures r.Ok? ==> MinOf(k) <= r.value <= MaxOf(k)
    ensures r.Err? ==> r.error.ParseError?
    ensures s == [] ==> r == Err(ParseError(Decimal.Message(Decimal.Empty)))
  {
    match Decimal.ParseInt(s, MinOf(k), MaxOf(k))
    case Ok(n) => Ok(n)
    case Err(e) => Err(ParseError(Decimal.Message(e)))
  }

  /** `T::from_input` for the scalar type `k`; `String` is the identity. */
  function Parse(k: ScalarKind, s: string): (r: Result<Scalar, IoError>)
    ensures r.Ok? ==> HasKind(r.value, k)
    ensures r.Err? ==> r.error.ParseError?
    ensures k.Text? ==> r.Ok?
  {
    match k
    case Text => Ok(StrVal(s))
    case Boolean => (match ParseBool(s) case Ok(b) => Ok(BoolVal(b)) case Err(e) => Err(e))
    case _ => (match ParseInteger(k, s) case Ok(n) => Ok(IntVal(n)) case Err(e) => Err(e))
  }

  /** `Option<T>::from_input`: the empty string is `None`; anything else is
      parsed as `T` and a value is wrapped in `Some`. */
  function ParseOptional(k: ScalarKind, s: string): (r: Result<Option<Scalar>, IoError>)
    ensures r == Ok(None) <==> s == []
    ensures r.Ok? && r.value.Some? ==> HasKind(r.value.value, k)
    ensures r.Err? ==> r.error.ParseError?
  {
    if s == [] then Ok(None) else WrapSome(Parse(k, s))
  }

  /** `Result::map(Some)`. */
  function WrapSome(r: Result<Scalar, IoError>): (w: Result<Option<Scalar>, IoError>)
    ensures w.Ok? <==> r.Ok?
    ensures w.Ok? ==> w.value == Some(r.value)
    ensures w.Err? ==> w.error == r.error
  {
    match r
    case Ok(v) => Ok(Some(v))
    case Err(e) => Err(e)
  }

  // ---------------------------------------------------------------------------
  // Scalar formatters (`ToOutput`)

  /** `to_output`: the text itself, `true`/`false`, or the decimal digits. */
  function Format(v: Scalar): (r: string)
    ensures v.StrVal? ==> r == v.s
    ensures v.BoolVal? ==> r == if v.b then "true" else "false"
    ensures v.IntVal? ==> r == Decimal.FormatInt(v.n)
    ensures !v.StrVal? ==> r != [] && !IsWhitespace(r[0])
  {
    match v
    case StrVal(s) => s
    case BoolVal(b) => if b then "true" else "false"
    case IntVal(n) => Decimal.FormatInt(n)
  }

  /** `Option<T>::to_output`: `None` is the empty string. */
  function FormatOptional(o: Option<Scalar>): (r: string)
    ensures o == None ==> r == ""
    ensures r == [] <==> o == None || o == Some(StrVal(""))
  {
    match o
    case None => ""
    case Some(v) => Format(v)
  }

  // ---------------------------------------------------------------------------
  // Environment resolver (`FromInputEnv`)

  /** What `env::var` reports for a key. */
  datatype EnvVal = NotPresent | NotUnicode | Present(s: string)

  type Env = map<string, EnvVal>

  /** A key missing from the map is not present. */
  function Lookup(env: Env, key: string): (r: EnvVal)
    ensures key !in env ==> r == NotPresent
    ensures key in env ==> r == env[key]
  {
    if key in env then env[key] else NotPresent
  }

  const InputPrefix: string := "INPUT_"

  /** The character that stands for `c` in an environment key. */
  function KeyChar(c: char): (k: char) {
    if c == '-' then '_' else UpperChar(c)
  }

  /** The environment variable holding input `name`: `INPUT_` followed by the
      upper-cased name with every `-` turned into `_`. */
  function EnvKey(name: string): (key: string)
    ensures |key| == |InputPrefix| + |name| && key[..|InputPrefix|] == InputPrefix
    ensures forall i :: 0 <= i < |name| ==> key[|InputPrefix| + i] == KeyChar(name[i])
  {
    InputPrefix + Replace(Upper(name), '-', '_')
  }

  /** `from_input_env`: the required form (`T`) when `required`, the optional
      form (`Option<T>`) otherwise. The required form's value is reported in
      `Some`. */
  function Resolve(env: Env, name: string, k: ScalarKind, required: bool): (r: Result<Option<Scalar>, IoError>)
    ensures required && r.Ok? ==> r.value.Some?
    ensures !required ==> !(r.Err? && r.error.MissingRequired?)
    ensures r.Ok? && r.value.Some? ==> HasKind(r.value.value, k)
    ensures r.Err? && r.error.MissingRequired? ==> r.error.name == name
  {
    match Lookup(env, EnvKey(name))
    case NotPresent => Missing(name, required)
    case NotUnicode => Err(ParseError(name))
    // `value.trim().is_empty()`, which `TrimEmptyIffBlank` shows to be `Blank(value)`
    case Present(value) => if Blank(value) then Missing(name, required) else WrapSome(Parse(k, value))
  }

  /** An input that is absent or blank: an error in the required form, `None`
      in the optional form. */
  function Missing(name: string, required: bool): (r: Result<Option<Scalar>, IoError>)
    ensures required <==> r.Err?
    ensures r.Err? ==> r.error == MissingRequired(name)
    ensures r.Ok? ==> r.value == None
  {
    if required then Err(MissingRequired(name)) else Ok(None)
  }

  // ---------------------------------------------------------------------------
  // Properties

  /** `String::from_input` succeeds on every string and returns it unchanged. */
  lemma ParseTextIsIdentity(s: string)
    ensures Parse(Text, s) == Ok(StrVal(s)) && Format(StrVal(s)) == s
  {
  }

  /** `s` spells `w` up to the case of ASCII letters. */
  predicate EqualsIgnoringCase(s: string, w: string) {
    |s| == |w| && forall i :: 0 <= i < |s| ==> LowerChar(s[i]) == LowerChar(w[i])
  }

  lemma LowerMatchesIgnoringCase(s: string, w: string)
    requires Lower(w) == w
    ensures Lower(s) == w <==> EqualsIgnoringCase(s, w)
  {
    if EqualsIgnoringCase(s, w) {
      assert forall i :: 0 <= i < |s| ==> Lower(s)[i] == w[i];
    }
  }

  /** `bool::from_input` gives `true` exactly for `true`, `1`, `yes` and
      `false` exactly for `false`, `0`, `no` and the empty string, in any mix
      of cases, and a parse error for everything else. */
  lemma ParseBoolSpellings(s: string)
    ensures ParseBool(s) == Ok(true) <==>
      EqualsIgnoringCase(s, "true") || EqualsIgnoringCase(s, "1") || EqualsIgnoringCase(s, "yes")
    ensures ParseBool(s) == Ok(false) <==>
      EqualsIgnoringCase(s, "false") || EqualsIgnoringCase(s, "0") || EqualsIgnoringCase(s, "no") || s == []
    ensures ParseBool(s).Err? ==> ParseBool(s).error.ParseError?
  {
    LowerMatchesIgnoringCase(s, "true");
    LowerMatchesIgnoringCase(s, "1");
    LowerMatchesIgnoringCase(s, "yes");
    LowerMatchesIgnoringCase(s, "false");
    LowerMatchesIgnoringCase(s, "0");
    LowerMatchesIgnoringCase(s, "no");
  }

  /** Upper-casing an ASCII input never changes whether or to what a boolean
      parses. (Beyond ASCII, Rust's full case mapping breaks this: `yeſ` is an
      error, but its upper-case form `YES` is `true`.) */
  lemma ParseBoolIgnoresCase(s: string)
    requires IsAscii(s)
    ensures ParseBool(Upper(s)).Ok? == ParseBool(s).Ok?
    ensures ParseBool(s).Ok? ==> ParseBool(Upper(s)).value == ParseBool(s).value
  {
    LowerOfUpper(s);
  }

  /** Examples: spellings of both values in several cases, and one error. */
  lemma ParseBoolExamples()
    ensures ParseBool("TRUE") == Ok(true) && ParseBool("True") == Ok(true)
    ensures ParseBool("1") == Ok(true) && ParseBool("yes") == Ok(true)
    ensures ParseBool("FALSE") == Ok(false) && ParseBool("0") == Ok(false)
    ensures ParseBool("no") == Ok(false) && ParseBool("") == Ok(false)
    ensures ParseBool("maybe").Err?
  {
    assert Lower("TRUE") == ['t', 'r', 'u', 'e'];
    assert Lower("True") == ['t', 'r', 'u', 'e'];
    assert Lower("FALSE") == ['f', 'a', 'l', 's', 'e'];
    assert Lower("maybe") == ['m', 'a', 'y', 'b', 'e'];
    assert Lower("1") == ['1'] && Lower("yes") == ['y', 'e', 's'];
    assert Lower("0") == ['0'] && Lower("no") == ['n', 'o'];
  }

  /** Formatting then parsing gives back every value of every scalar type. */
  lemma ParseFormat(k: ScalarKind, v: Scalar)
    requires HasKind(v, k)
    ensures Parse(k, Format(v)) == Ok(v)
  {
    match k
    case Text =>
    case Boolean =>
      assert Lower("true") == "true";
      assert Lower("false") == "false";
    case _ =>
      Decimal.ParseFormatInt(v.n, MinOf(k), MaxOf(k));
  }

  /** One parse normalises: formatting a parsed value and parsing again gives
      the same result (for booleans, `1`/`yes`/`no` become `true`/`false`). */
  lemma ParseNormalises(k: ScalarKind, s: string)
    requires Parse(k, s).Ok?
    ensures Parse(k, Format(Parse(k, s).value)) == Parse(k, s)
  {
    ParseFormat(k, Parse(k, s).value);
  }

  /** An integer type accepts exactly the decimal literals (optional `+`, `-`
      only for signed types) whose value lies in its range. */
  lemma ParseIntegerMeaning(k: ScalarKind, s: string)
    requires IsInteger(k)
    ensures var m := Decimal.Reading(s, MinOf(k) < 0);
      && (Parse(k, s).Ok? <==> m.Some? && MinOf(k) <= m.value <= MaxOf(k))
      && (Parse(k, s).Ok? ==> Parse(k, s).value == IntVal(m.value))
  {
    Decimal.ParseIntMeansReading(s, MinOf(k), MaxOf(k));
  }

  /** The decimal text of an integer outside a type's range is a parse error. */
  lemma ParseOutOfRange(k: ScalarKind, n: int)
    requires IsInteger(k) && !(MinOf(k) <= n <= MaxOf(k))
    ensures Parse(k, Decimal.FormatInt(n)).Err?
    ensures Parse(k, Decimal.FormatInt(n)).error.ParseError?
  {
    Decimal.ParseFormatInt(n, MinOf(k), MaxOf(k));
  }

  /** `HasKind` lifted to optional values. */
  predicate HasOptionalKind(o: Option<Scalar>, k: ScalarKind) {
    o.Some? ==> HasKind(o.value, k)
  }

  /** The `Option` adapter: the empty string is `None`; any other string gives
      `Some` of what `T` gives, and `T`'s error unchanged. */
  lemma ParseOptionalAdapts(k: ScalarKind, s: string)
    ensures s == [] ==> ParseOptional(k, s) == Ok(None)
    ensures s != [] ==> (ParseOptional(k, s).Ok? <==> Parse(k, s).Ok?)
    ensures s != [] && Parse(k, s).Ok? ==> ParseOptional(k, s) == Ok(Some(Parse(k, s).value))
    ensures s != [] && Parse(k, s).Err? ==> ParseOptional(k, s) == Err(Parse(k, s).error)
  {
  }

  /** Formatting then parsing an optional value gives it back, except for
      `Some("")`, which formats like `None` and so comes back as `None`. */
  lemma ParseFormatOptional(k: ScalarKind, o: Option<Scalar>)
    requires HasOptionalKind(o, k)
    ensures o.Some? ==> FormatOptional(o) == Format(o.value)
    ensures ParseOptional(k, FormatOptional(o)) == Ok(o) <==> o != Some(StrVal(""))
    ensures o == Some(StrVal("")) ==> ParseOptional(k, FormatOptional(o)) == Ok(None)
  {
    if o.Some? {
      ParseFormat(k, o.value);
      match o.value
      case StrVal(s) =>
      case BoolVal(b) =>
      case IntVal(n) =>
        assert |Decimal.FormatInt(n)| >= 1;
    }
  }

  /** The empty string is `false` to `bool` but `None` to `Option<bool>`. */
  lemma EmptyBoolAndOptionalBool()
    ensures Parse(Boolean, "") == Ok(BoolVal(false))
    ensures ParseOptional(Boolean, "") == Ok(None)
  {
  }

  /** Two ASCII names share an environment variable exactly when they agree up to
      the case of ASCII letters and `-` versus `_`. (Beyond ASCII, Rust's full
      upper-casing merges more names, such as `é` and `É`, or `ß` and `ss`.) */
  lemma EnvKeyCollisions(a: string, b: string)
    requires IsAscii(a) && IsAscii(b)
    ensures EnvKey(a) == EnvKey(b) <==>
      |a| == |b| && forall i :: 0 <= i < |a| ==> KeyChar(a[i]) == KeyChar(b[i])
  {
    var p := |InputPrefix|;
    if EnvKey(a) == EnvKey(b) {
      forall i | 0 <= i < |a| ensures KeyChar(a[i]) == KeyChar(b[i]) {
        assert EnvKey(a)[p + i] == EnvKey(b)[p + i];
      }
    }
    if |a| == |b| && forall i :: 0 <= i < |a| ==> KeyChar(a[i]) == KeyChar(b[i]) {
      forall j | 0 <= j < |EnvKey(a)| ensures EnvKey(a)[j] == EnvKey(b)[j] {
        if j < p {
          assert EnvKey(a)[j] == EnvKey(a)[..p][j];
          assert EnvKey(b)[j] == EnvKey(b)[..p][j];
        } else {
          assert EnvKey(a)[p + (j - p)] == EnvKey(b)[p + (j - p)];
        }
      }
    }
  }

  /** Examples: the keys of a few input names. */
  lemma EnvKeyOfPullNumber()
    ensures EnvKey("pull-number") == "INPUT_PULL_NUMBER"
  {
    var u := Upper("pull-number");
    assert u == ['P', 'U', 'L', 'L', '-', 'N', 'U', 'M', 'B', 'E', 'R'];
    var r := Replace(u, '-', '_');
    assert r == ['P', 'U', 'L', 'L', '_', 'N', 'U', 'M', 'B', 'E', 'R'];
    assert InputPrefix + r == "INPUT_PULL_NUMBER";
  }

  lemma EnvKeyOfToken()
    ensures EnvKey("token") == "INPUT_TOKEN"
  {
    var u := Upper("token");
    assert u == ['T', 'O', 'K', 'E', 'N'];
    var r := Replace(u, '-', '_');
    assert r == ['T', 'O', 'K', 'E', 'N'];
    assert InputPrefix + r == "INPUT_TOKEN";
  }

  lemma EnvKeyOfNumber()
    ensures EnvKey("number") == "INPUT_NUMBER"
  {
    var u := Upper("number");
    assert u == ['N', 'U', 'M', 'B', 'E', 'R'];
    var r := Replace(u, '-', '_');
    assert r == ['N', 'U', 'M', 'B', 'E', 'R'];
    assert InputPrefix + r == "INPUT_NUMBER";
  }

  lemma EnvKeyOfBody()
    ensures EnvKey("body") == "INPUT_BODY"
  {
    var u := Upper("body");
    assert u == ['B', 'O', 'D', 'Y'];
    var r := Replace(u, '-', '_');
    assert r == ['B', 'O', 'D', 'Y'];
    assert InputPrefix + r == "INPUT_BODY";
  }

  /** Differently spelled names can name the same input. */
  lemma EnvKeyCollisionExample()
    ensures EnvKey("PULL_NUMBER") == EnvKey("pull-number")
  {
    var u := Upper("PULL_NUMBER");
    assert u == ['P', 'U', 'L', 'L', '_', 'N', 'U', 'M', 'B', 'E', 'R'];
    var r := Replace(u, '-', '_');
    assert r == ['P', 'U', 'L', 'L', '_', 'N', 'U', 'M', 'B', 'E', 'R'];
    assert InputPrefix + r == "INPUT_PULL_NUMBER";
    EnvKeyOfPullNumber();
  }

  /** The raw value gives no usable input: absent, or blank once trimmed. */
  predicate Unusable(raw: EnvVal) {
    raw.NotPresent? || (raw.Present? && Trim(raw.s) == [])
  }

  /** The presence policy, in full: an unusable value is `MissingRequired` for a
      required input and `None` for an optional one; a value that is not
      Unicode is `ParseError(name)` either way; any other value goes, untrimmed,
      to the parser, whose value is wrapped in `Some` and whose error is
      passed on. */
  lemma ResolvePolicy(env: Env, name: string, k: ScalarKind, required: bool)
    ensures var raw := Lookup(env, EnvKey(name));
      var r := Resolve(env, name, k, required);
      && (Unusable(raw) ==> r == if required then Err(MissingRequired(name)) else Ok(None))
      && (raw.NotUnicode? ==> r == Err(ParseError(name)))
      && (raw.Present? && Trim(raw.s) != [] && Parse(k, raw.s).Ok? ==> r == Ok(Some(Parse(k, raw.s).value)))
      && (raw.Present? && Trim(raw.s) != [] && Parse(k, raw.s).Err? ==> r == Err(Parse(k, raw.s).error))
  {
    var raw := Lookup(env, EnvKey(name));
    if raw.Present? {
      TrimEmptyIffBlank(raw.s);
    }
  }

  /** The parser never sees a blank value: whenever the resolver's result is
      the parser's, the value it parsed has a non-whitespace character. */
  lemma ResolveParsesOnlyNonBlank(env: Env, name: string, k: ScalarKind, required: bool)
    requires Resolve(env, name, k, required).Ok? && Resolve(env, name, k, required).value.Some?
    ensures Lookup(env, EnvKey(name)).Present?
    ensures !Blank(Lookup(env, EnvKey(name)).s)
    ensures Trim(Lookup(env, EnvKey(name)).s) != []
    ensures Resolve(env, name, k, required) == Ok(Some(Parse(k, Lookup(env, EnvKey(name)).s).value))
  {
    ResolvePolicy(env, name, k, required);
  }

  /** The two forms differ only in how they report an unusable value: where the
      required form says `MissingRequired(name)` the optional form says `None`,
      and everywhere else they agree. */
  lemma RequiredAndOptionalAgree(env: Env, name: string, k: ScalarKind)
    ensures Resolve(env, name, k, true) == Err(MissingRequired(name)) <==>
      Resolve(env, name, k, false) == Ok(None)
    ensures Resolve(env, name, k, true) != Err(MissingRequired(name)) ==>
      Resolve(env, name, k, true) == Resolve(env, name, k, false)
  {
  }

  /** For a value with something in it the optional form is the `Option`
      adapter applied to that value. */
  lemma OptionalResolveIsAdapter(env: Env, name: string, k: ScalarKind)
    requires Lookup(env, EnvKey(name)).Present? && Trim(Lookup(env, EnvKey(name)).s) != []
    ensures Resolve(env, name, k, false) == ParseOptional(k, Lookup(env, EnvKey(name)).s)
  {
    TrimEmptyIffBlank(Lookup(env, EnvKey(name)).s);
  }

  /** A blank required boolean is missing, although `bool` itself would read
      the empty string as `false`. */
  lemma BlankRequiredBoolIsMissing(env: Env, name: string)
    requires Lookup(env, EnvKey(name)) == Present("")
    ensures Resolve(env, name, Boolean, true) == Err(MissingRequired(name))
    ensures Parse(Boolean, "") == Ok(BoolVal(false))
  {
  }

  /** Example: `INPUT_NUMBER` is `42`, `INPUT_BODY` is empty
      and `INPUT_TOKEN` is unset. */
  lemma ResolveScenario(env: Env)
    requires Lookup(env, "INPUT_NUMBER") == Present("42")
    requires Lookup(env, "INPUT_BODY") == Present("")
    requires Lookup(env, "INPUT_TOKEN") == NotPresent
    ensures Resolve(env, "number", U64, true) == Ok(Some(IntVal(42)))
    ensures Resolve(env, "body", Text, true) == Err(MissingRequired("body"))
    ensures Resolve(env, "token", Text, true) == Err(MissingRequired("token"))
    ensures Resolve(env, "token", Text, false) == Ok(None)
  {
    EnvKeyOfNumber();
    EnvKeyOfBody();
    EnvKeyOfToken();
    assert Decimal.FormatInt(42) == "42" by {
      assert Decimal.NatToDecimal(4) == "4";
    }
    ParseFormat(U64, IntVal(42));
    assert !Blank("42") by {
      assert !IsWhitespace("42"[0]);
    }
    assert Resolve(env, "number", U64, true) == WrapSome(Parse(U64, "42"));
  }
}
