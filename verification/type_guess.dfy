/**
 * Variable type inference: `_guess_datatype` and the construction of the
 * variable bindings from the `TESTDATA_VARIABLE_` environment entries
 * (grizzly_cli/utils.py, `distribution_of_users_per_scenario`).
 */
module TypeGuess {
  import opened Errors
  import opened Text

  /** The four kinds a raw variable value can be read as. */
  datatype Value = Str(s: string) | Int(i: int) | Float(f: real) | Bool(b: bool)

  /** The variable bindings handed to the template renderer. */
  type Bindings = map<string, Value>

  /**
   * The text the numeric gate inspects: the value without its first `.`,
   * then without one leading `-`. `None` where the source's
   * `check_value[0]` raises, i.e. when nothing is left after the `.` is
   * dropped.
   */
  function NumericCore(value: string): Option<string> {
    var check := RemoveFirst(value, '.');
    if |check| == 0 then None
    else Some(if check[0] == '-' then check[1..] else check)
  }

  /** `str.isdecimal()`: non-empty and only decimal digits. */
  predicate IsDecimal(s: string) {
    |s| > 0 && AllDigits(s)
  }

  function Pow10(n: nat): (p: nat)
    ensures p >= 1
  {
    if n == 0 then 1 else 10 * Pow10(n - 1)
  }

  /**
   * Python's `float(s)` on the strings the numeric gate can admit: an
   * optional `-`, integer digits, and an optional `.` followed by fraction
   * digits, with at least one digit in all. `None` where `float()` raises.
   */
  function ParseDecimal(s: string): Option<real> {
    var negative := |s| > 0 && s[0] == '-';
    var body := if negative then s[1..] else s;
    var dot := FirstIndexOf(body, '.');
    var whole := if dot.Some? then body[..dot.value] else body;
    var fraction := if dot.Some? then body[dot.value + 1..] else "";
    if AllDigits(whole) && AllDigits(fraction) && |whole| + |fraction| > 0 then
      var magnitude := DigitsValue(whole) as real + DigitsValue(fraction) as real / Pow10(|fraction|) as real;
      Some(if negative then -magnitude else magnitude)
    else None
  }

  /** Digits followed by digits are digits. */
  lemma AllDigitsJoin(a: string, b: string)
    requires AllDigits(a) && AllDigits(b)
    ensures AllDigits(a + b)
  {
    forall k | 0 <= k < |a + b|
      ensures IsDigit((a + b)[k])
    {
      if k < |a| {
        assert (a + b)[k] == a[k];
      } else {
        assert (a + b)[k] == b[k - |a|];
      }
    }
  }

  /**
   * Every value `float()` reads as a number passes the numeric gate: what
   * is left once the first `.` and the sign are dropped is its digits.
   */
  lemma ParseGate(value: string)
    ensures ParseDecimal(value).Some? ==> NumericCore(value).Some? && IsDecimal(NumericCore(value).value)
  {
    if ParseDecimal(value).Some? {
      if |value| > 0 && value[0] == '-' {
        SignedGate(value);
      } else {
        UnsignedGate(value);
      }
    }
  }

  lemma UnsignedGate(value: string)
    requires ParseDecimal(value).Some? && !(|value| > 0 && value[0] == '-')
    ensures NumericCore(value).Some? && IsDecimal(NumericCore(value).value)
  {
    var dot := FirstIndexOf(value, '.');
    var whole := if dot.Some? then value[..dot.value] else value;
    var fraction := if dot.Some? then value[dot.value + 1..] else "";
    var digits := whole + fraction;
    assert AllDigits(whole) && AllDigits(fraction) && |digits| > 0;
    AllDigitsJoin(whole, fraction);
    var check := RemoveFirst(value, '.');
    if dot.Some? {
      RemoveFirstAt(value, '.', dot.value);
    }
    assert check == digits;
    assert IsDigit(check[0]);
  }

  lemma SignedGate(value: string)
    requires ParseDecimal(value).Some? && |value| > 0 && value[0] == '-'
    ensures NumericCore(value).Some? && IsDecimal(NumericCore(value).value)
  {
    var body := value[1..];
    var dot := FirstIndexOf(body, '.');
    var whole := if dot.Some? then body[..dot.value] else body;
    var fraction := if dot.Some? then body[dot.value + 1..] else "";
    assert AllDigits(whole) && AllDigits(fraction) && |whole + fraction| > 0;
    AllDigitsJoin(whole, fraction);
    match dot
    case None =>
      SignedNoDotGate(value);
    case Some(d) =>
      assert body[..d] == value[1..d + 1] && body[d + 1..] == value[d + 2..];
      SignedDotGate(value, d);
  }

  lemma SignedNoDotGate(value: string)
    requires |value| > 0 && value[0] == '-' && '.' !in value[1..]
    ensures NumericCore(value) == Some(value[1..])
  {
    assert value == [value[0]] + value[1..];
    assert '.' !in value;
  }

  lemma SignedDotGate(value: string, d: nat)
    requires d + 1 < |value| && value[0] == '-' && value[d + 1] == '.' && '.' !in value[1..d + 1]
    ensures NumericCore(value) == Some(value[1..d + 1] + value[d + 2..])
  {
    assert value[..d + 1] == [value[0]] + value[1..d + 1];
    RemoveFirstAt(value, '.', d + 1);
    var check := RemoveFirst(value, '.');
    assert check == [value[0]] + (value[1..d + 1] + value[d + 2..]);
  }

  /** `x % 1 == 0`. */
  predicate IsWhole(x: real) {
    x.Floor as real == x
  }

  /**
   * `_guess_datatype`: a numeric value with no fractional part is kept as
   * text when it starts with `0` (identifiers such as "007") and read as an
   * integer otherwise; a numeric value with a fraction is a float;
   * "true"/"false" in any case is a boolean; anything else is kept as text.
   */
  function GuessDatatype(value: string): (r: Result<Value>)
    ensures r.Ok? && r.value.Str? ==> r.value.s == value
    ensures r.Ok? && r.value.Int? ==> ParseDecimal(value) == Some(r.value.i as real) && !StartsWith(value, "0")
    ensures r.Ok? && r.value.Float? ==> ParseDecimal(value) == Some(r.value.f) && !IsWhole(r.value.f)
    ensures r.Ok? && r.value.Bool? ==> ToLower(value) == (if r.value.b then "true" else "false")
    ensures ParseDecimal(value).Some? ==>
              var x := ParseDecimal(value).value;
              r == Ok(if !IsWhole(x) then Float(x) else if StartsWith(value, "0") then Str(value) else Int(x.Floor))
    ensures ParseDecimal(value).None? && r.Ok? ==>
              r == Ok(if ToLower(value) == "true" then Bool(true)
                      else if ToLower(value) == "false" then Bool(false)
                      else Str(value))
    ensures r.Err? ==> r.error == EmptyValue(value) || r.error == NotAFloat(value)
  {
    ParseGate(value);
    match NumericCore(value)
    case None => Err(EmptyValue(value))
    case Some(core) =>
      if IsDecimal(core) then
        match ParseDecimal(value)
        case None => Err(NotAFloat(value))
        case Some(x) =>
          if IsWhole(x) then
            if StartsWith(value, "0") then Ok(Str(value)) else Ok(Int(x.Floor))
          else Ok(Float(x))
      else if ToLower(value) == "true" || ToLower(value) == "false" then
        Ok(Bool(ToLower(value) == "true"))
      else Ok(Str(value))
  }

  /** The shape on which `float()` raises although the numeric gate admitted it. */
  predicate DotBeforeMinus(value: string) {
    |value| > 2 && value[..2] == ".-" && AllDigits(value[2..])
  }

  /** Without a `.` the numeric gate and `float()` agree. */
  lemma GuessNoDot(value: string)
    requires '.' !in value
    ensures GuessDatatype(value).Err? <==> value == ""
    ensures !DotBeforeMinus(value)
  {
    assert FirstIndexOf(value, '.') == None;
    assert RemoveFirst(value, '.') == value;
    if |value| > 0 {
      var core := NumericCore(value).value;
      if IsDecimal(core) {
        var body := if value[0] == '-' then value[1..] else value;
        assert body == core;
        assert '.' !in body;
        assert ParseDecimal(value).Some?;
      }
    }
    if |value| > 2 {
      assert value[0] == value[..2][0];
    }
  }

  /** A leading `.` fails on "." and on ".-<digits>" only. */
  lemma GuessLeadingDot(value: string)
    requires |value| > 0 && value[0] == '.'
    ensures GuessDatatype(value).Err? <==> value == "." || DotBeforeMinus(value)
  {
    FirstIndexOfUnique(value, '.', 0);
    var check := RemoveFirst(value, '.');
    assert check == value[1..];
    if |value| > 1 {
      var core := NumericCore(value).value;
      if check[0] == '-' {
        assert core == value[2..];
        assert value[..2] == ".-";
        assert !AllDigits(value[1..]) by { assert !IsDigit(value[1..][0]); }
        assert ParseDecimal(value).None?;
      } else {
        assert core == value[1..];
        assert !DotBeforeMinus(value) by {
          assert value[..2][1] == value[1];
        }
        if IsDecimal(core) {
          assert ParseDecimal(value).Some?;
        }
      }
    }
  }

  lemma AllDigitsSlice(s: string, from: nat, to: nat, t: string, offset: nat)
    requires from <= to <= |s| && AllDigits(t)
    requires offset + (to - from) <= |t|
    requires forall k :: from <= k < to ==> s[k] == t[offset + k - from]
    ensures AllDigits(s[from..to])
  {
    forall k | 0 <= k < to - from
      ensures IsDigit(s[from..to][k])
    {
      assert s[from..to][k] == s[from + k] == t[offset + k];
    }
  }

  /** "-<digits>.<digits>" parses. */
  lemma ParseSignedDotted(value: string, i: nat, core: string)
    requires 1 < i + 1 <= |value| && value[0] == '-' && value[i] == '.' && '.' !in value[..i]
    requires i > 0 && IsDecimal(core) && core == value[1..i] + value[i + 1..]
    ensures ParseDecimal(value).Some?
  {
    var body := value[1..];
    assert '.' !in body[..i - 1] by {
      forall k | 0 <= k < i - 1
        ensures body[k] != '.'
      {
        assert body[k] == value[..i][k + 1];
      }
    }
    FirstIndexOfUnique(body, '.', i - 1);
    assert body[..i - 1] == value[1..i];
    assert body[i..] == value[i + 1..];
    AllDigitsSlice(value, 1, i, core, 0);
    AllDigitsSlice(value, i + 1, |value|, core, i - 1);
  }

  /** "<digits>.<digits>" parses. */
  lemma ParseDotted(value: string, i: nat, core: string)
    requires i < |value| && value[0] != '-' && value[i] == '.' && '.' !in value[..i]
    requires IsDecimal(core) && core == value[..i] + value[i + 1..]
    ensures ParseDecimal(value).Some?
  {
    FirstIndexOfUnique(value, '.', i);
    AllDigitsSlice(value, 0, i, core, 0);
    AllDigitsSlice(value, i + 1, |value|, core, i);
    assert value[0..i] == value[..i];
  }

  /** A first `.` after the first character never makes inference fail. */
  lemma GuessLaterDot(value: string, i: nat)
    requires 0 < i < |value| && value[i] == '.' && '.' !in value[..i]
    ensures GuessDatatype(value).Ok?
    ensures !DotBeforeMinus(value)
  {
    FirstIndexOfUnique(value, '.', i);
    var check := RemoveFirst(value, '.');
    assert check == value[..i] + value[i + 1..];
    assert check[0] == value[0];
    assert value[0] != '.' by { assert value[..i][0] == value[0]; }
    if |value| > 2 {
      assert value[..2][0] == value[0];
    }
    var core := NumericCore(value).value;
    if IsDecimal(core) {
      if value[0] == '-' {
        assert core == value[1..i] + value[i + 1..];
        ParseSignedDotted(value, i, core);
      } else {
        assert core == check;
        ParseDotted(value, i, core);
      }
    }
  }

  /**
   * Inference fails exactly on "" and "." (an index error) and on a value
   * of the shape ".-<digits>" (which `float()` rejects).
   */
  lemma GuessFailsExactly(value: string)
    ensures GuessDatatype(value).Err? <==> value == "" || value == "." || DotBeforeMinus(value)
  {
    match FirstIndexOf(value, '.')
    case None => GuessNoDot(value);
    case Some(i) =>
      if i == 0 {
        GuessLeadingDot(value);
      } else {
        GuessLaterDot(value, i);
      }
  }

  /** A value whose first character is a letter is never numeric. */
  lemma GuessWord(value: string)
    requires |value| > 0 && ('a' <= value[0] <= 'z' || 'A' <= value[0] <= 'Z')
    ensures GuessDatatype(value) == Ok(
              if ToLower(value) == "true" then Bool(true)
              else if ToLower(value) == "false" then Bool(false)
              else Str(value))
  {
    var check := RemoveFirst(value, '.');
    RemoveFirstHead(value, '.');
    assert NumericCore(value) == Some(check);
    assert !IsDecimal(check) by {
      assert !IsDigit(check[0]);
    }
  }

  /** `str(i)` of a non-zero integer reads back as that integer. */
  lemma IntRoundTrip(i: int)
    requires i != 0
    ensures GuessDatatype(IntToString(i)) == Ok(Int(i))
  {
    var value := IntToString(i);
    var digits := NatToString(if i < 0 then -i else i);
    assert value == (if i < 0 then "-" + digits else digits);
    assert '.' !in digits;
    assert ParseDecimal(value) == Some(i as real);
    assert value[..1] != "0" by { assert value[..1][0] == value[0]; }
  }

  /** An all-digit value with a leading zero keeps its text, so identifiers keep their zeros. */
  lemma LeadingZeroKept(value: string)
    requires |value| > 0 && AllDigits(value) && value[0] == '0'
    ensures GuessDatatype(value) == Ok(Str(value))
  {
    assert '.' !in value by {
      forall k | 0 <= k < |value| ensures value[k] != '.' { assert IsDigit(value[k]); }
    }
    assert NumericCore(value) == Some(value);
    assert ParseDecimal(value) == Some(DigitsValue(value) as real);
  }

  /** Identifiers with leading zeros, and words, stay text. */
  lemma GuessTextExamples()
    ensures GuessDatatype("007") == Ok(Str("007"))
    ensures GuessDatatype("0") == Ok(Str("0"))
    ensures GuessDatatype("abc") == Ok(Str("abc"))
  {
    LeadingZeroKept("007");
    LeadingZeroKept("0");
    GuessWord("abc");
  }

  lemma LowerTrueFalse()
    ensures ToLower("true") == "true"
    ensures ToLower("False") == "false"
  {
    assert ToLower("e") == "e";
    assert ToLower("se") == "se";
    assert ToLower("lse") == "lse";
    assert ToLower("alse") == "alse";
  }

  /** Booleans in any case. */
  lemma GuessBoolExamples()
    ensures GuessDatatype("true") == Ok(Bool(true))
    ensures GuessDatatype("False") == Ok(Bool(false))
  {
    LowerTrueFalse();
    GuessWord("true");
    GuessWord("False");
  }

  /** The documented examples of inference on numbers: a whole number. */
  lemma GuessIntExample()
    ensures GuessDatatype("7") == Ok(Int(7))
  {
    IntRoundTrip(7);
  }

  /** A whole number written with a fraction is still an integer. */
  lemma GuessWholeFloatExample()
    ensures GuessDatatype("1.0") == Ok(Int(1))
  {
    FirstIndexOfUnique("1.0", '.', 1);
    assert RemoveFirst("1.0", '.') == "10";
    assert NumericCore("1.0") == Some("10");
    assert "1.0"[..1] == "1" && "1.0"[2..] == "0";
    assert DigitsValue("1") == 1 && DigitsValue("0") == 0;
    assert ParseDecimal("1.0") == Some(1.0);
  }

  /** A number with a fractional part is a float. */
  lemma GuessFloatExample()
    ensures GuessDatatype("7.5") == Ok(Float(7.5))
  {
    FirstIndexOfUnique("7.5", '.', 1);
    assert RemoveFirst("7.5", '.') == "75";
    assert NumericCore("7.5") == Some("75");
    assert "7.5"[..1] == "7" && "7.5"[2..] == "5";
    assert DigitsValue("7") == 7 && DigitsValue("5") == 5;
    assert ParseDecimal("7.5") == Some(7.5);
  }

  /** A `.` in front of the sign passes the numeric gate but is not a number. */
  lemma GuessDotBeforeMinusExample()
    ensures GuessDatatype(".-5") == Err(NotAFloat(".-5"))
  {
    FirstIndexOfUnique(".-5", '.', 0);
    assert RemoveFirst(".-5", '.') == "-5";
    assert NumericCore(".-5") == Some("5");
    assert IsDecimal("5");
    assert !AllDigits(".-5"[1..]) by { assert ".-5"[1..][0] == '-'; }
    assert ParseDecimal(".-5") == None;
  }

  /** The environment variable prefix that marks a template variable. */
  const VariablePrefix: string := "TESTDATA_VARIABLE_"

  /** Entry `k` of the environment defines the variable `name`. */
  predicate Binds(environ: seq<(string, string)>, k: int, name: string) {
    0 <= k < |environ| && StartsWith(environ[k].0, VariablePrefix)
    && RemoveAll(environ[k].0, VariablePrefix) == name
  }

  /** Entry `k` of the environment is a template variable whose value inference rejects. */
  predicate FailsAt(environ: seq<(string, string)>, k: int) {
    0 <= k < |environ| && StartsWith(environ[k].0, VariablePrefix)
    && GuessDatatype(environ[k].1).Err?
  }

  /**
   * The bindings built from the environment, in its iteration order: every
   * prefixed key is stripped of every occurrence of the prefix and bound to
   * its inferred value; the first value inference rejects aborts.
   */
  function Variables(environ: seq<(string, string)>): (r: Result<Bindings>)
    ensures r.Err? ==> r.error.EmptyValue? || r.error.NotAFloat?
    decreases |environ|
  {
    if |environ| == 0 then Ok(map[])
    else
      var prior :- Variables(environ[..|environ| - 1]);
      var (key, value) := environ[|environ| - 1];
      if StartsWith(key, VariablePrefix) then
        var typed :- GuessDatatype(value);
        Ok(prior[RemoveAll(key, VariablePrefix) := typed])
      else Ok(prior)
  }

  /** The entry defining `name` that no later entry redefines. */
  ghost predicate LastBinding(environ: seq<(string, string)>, k: int, name: string) {
    Binds(environ, k, name) && forall j :: k < j ==> !Binds(environ, j, name)
  }

  /** Entries before position `n` mean the same in the environment and in its first `n` entries. */
  lemma PrefixAgrees(environ: seq<(string, string)>, n: nat)
    requires n <= |environ|
    ensures forall k, name :: 0 <= k < n ==> (Binds(environ[..n], k, name) <==> Binds(environ, k, name))
    ensures forall k :: 0 <= k < n ==> (FailsAt(environ[..n], k) <==> FailsAt(environ, k))
  {
    forall k | 0 <= k < n
      ensures environ[..n][k] == environ[k]
    {
    }
  }

  /** Building the bindings fails exactly when some prefixed value cannot be inferred. */
  lemma {:induction false} VariablesFail(environ: seq<(string, string)>)
    ensures Variables(environ).Err? <==> exists k :: FailsAt(environ, k)
    decreases |environ|
  {
    if |environ| > 0 {
      var n := |environ| - 1;
      var earlier := environ[..n];
      VariablesFail(earlier);
      PrefixAgrees(environ, n);
      forall k | FailsAt(environ, k)
        ensures Variables(environ).Err?
      {
        if k < n {
          assert FailsAt(earlier, k);
        }
      }
      if Variables(environ).Err? {
        if Variables(earlier).Err? {
          var k :| FailsAt(earlier, k);
          assert FailsAt(environ, k);
        } else {
          assert FailsAt(environ, n);
        }
      }
    }
  }

  /** The bound names are exactly the prefixed keys with the prefix removed. */
  lemma VariablesNames(environ: seq<(string, string)>, name: string)
    requires Variables(environ).Ok?
    ensures name in Variables(environ).value <==> exists k :: Binds(environ, k, name)
  {
    forall k | Binds(environ, k, name)
      ensures name in Variables(environ).value
    {
      VariablesBound(environ, k, name);
    }
    if name in Variables(environ).value {
      VariablesWitness(environ, name);
    }
  }

  /** Every prefixed key binds its name. */
  lemma {:induction false} VariablesBound(environ: seq<(string, string)>, k: int, name: string)
    requires Variables(environ).Ok? && Binds(environ, k, name)
    ensures name in Variables(environ).value
    decreases |environ|
  {
    var n := |environ| - 1;
    if k < n {
      var earlier := environ[..n];
      PrefixAgrees(environ, n);
      assert Binds(earlier, k, name);
      VariablesBound(earlier, k, name);
    }
  }

  /** Every bound name comes from a prefixed key. */
  lemma {:induction false} VariablesWitness(environ: seq<(string, string)>, name: string)
    requires Variables(environ).Ok? && name in Variables(environ).value
    ensures exists k :: Binds(environ, k, name)
    decreases |environ|
  {
    var n := |environ| - 1;
    var earlier := environ[..n];
    var (key, value) := environ[n];
    if StartsWith(key, VariablePrefix) && RemoveAll(key, VariablePrefix) == name {
      assert Binds(environ, n, name);
    } else {
      VariablesWitness(earlier, name);
      PrefixAgrees(environ, n);
      var k :| Binds(earlier, k, name);
      assert Binds(environ, k, name);
    }
  }

  lemma LastBindingPrefix(environ: seq<(string, string)>, k: nat, name: string)
    requires LastBinding(environ, k, name) && k < |environ| - 1
    ensures LastBinding(environ[..|environ| - 1], k, name)
  {
    var n := |environ| - 1;
    PrefixAgrees(environ, n);
    forall j | k < j
      ensures !Binds(environ[..n], j, name)
    {
      if j < n {
        assert !Binds(environ, j, name);
      }
    }
  }

  /** Each name is bound to the inferred value of the last entry defining it. */
  lemma {:induction false} VariablesLastWins(environ: seq<(string, string)>, k: nat, name: string)
    requires Variables(environ).Ok?
    requires LastBinding(environ, k, name)
    ensures name in Variables(environ).value
    ensures Ok(Variables(environ).value[name]) == GuessDatatype(environ[k].1)
    decreases |environ|
  {
    var n := |environ| - 1;
    var earlier := environ[..n];
    var (key, value) := environ[n];
    if k < n {
      LastBindingPrefix(environ, k, name);
      VariablesLastWins(earlier, k, name);
      assert earlier[k] == environ[k];
      assert !Binds(environ, n, name);
      var prior := Variables(earlier).value;
      assert Variables(environ).value == prior
          || Variables(environ).value == prior[RemoveAll(key, VariablePrefix) := GuessDatatype(value).value];
    }
  }

  /** A key carrying the prefix once binds the rest of the key. */
  lemma PlainKeyBinds(name: string)
    requires forall i :: !OccursAt(name, VariablePrefix, i)
    ensures RemoveAll(VariablePrefix + name, VariablePrefix) == name
  {
    var key := VariablePrefix + name;
    assert key[..|VariablePrefix|] == VariablePrefix;
    assert key[|VariablePrefix|..] == name;
    RemoveAllAbsent(name, VariablePrefix);
  }
}
