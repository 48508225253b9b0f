/** The process environment that `imagenService.js` reads once at load time, the constants it
    derives from it (bucket, region, folder, allowed types, size ceiling), and
    `ImageService.validateConfiguration`, which reports the variables that are missing. */
module ImageConfig {
  import opened JsText

  /** `process.env` after `dotenv` has loaded: variable name to value. */
  type Env = map<string, string>

  /** `process.env[name]` is truthy: set, and not to the empty string. */
  predicate IsSet(env: Env, name: string) {
    name in env && env[name] != ""
  }

  /** A variable with a fallback for an unset or empty value. */
  function OrDefault(env: Env, name: string, fallback: string): (v: string)
    ensures IsSet(env, name) ==> v == env[name]
    ensures !IsSet(env, name) ==> v == fallback
  {
    if IsSet(env, name) then env[name] else fallback
  }

  /** A JavaScript number produced by `parseInt`: an integer, or `NaN`. */
  datatype JsInt = Number(value: int) | NaN

  /** `size > max` on JavaScript numbers: every comparison with `NaN` is false, so a `NaN`
      ceiling rejects nothing. */
  predicate Exceeds(size: int, max: JsInt) {
    max.Number? && size > max.value
  }

  /** The constants of `imagenService.js`. `bucket` is the text that `${BUCKET_NAME}`
      interpolates, which is "undefined" when the variable is absent. */
  datatype Config = Config(
    bucket: string,
    region: string,
    folder: string,
    allowedTypes: seq<string>,
    maxFileSize: JsInt)

  const DefaultRegion: string := "us-east-1"
  const DefaultFolder: string := "recetas/"
  const DefaultAllowedTypes: seq<string> :=
    ["image/jpeg", "image/jpg", "image/png", "image/gif", "image/webp"]
  const DefaultMaxFileSizeText: string := "5242880"
  /** 5 MiB */
  const DefaultMaxFileSize: int := 5 * 1024 * 1024

  /** The module-level constants. `ALLOWED_FILE_TYPES?.split(',')` takes effect whenever the
      variable is defined, even when empty (it then allows only ""); the other variables
      fall back to their defaults when unset or empty. */
  function LoadConfig(env: Env): (c: Config)
    ensures c.bucket == if "S3_BUCKET_NAME" in env then env["S3_BUCKET_NAME"] else "undefined"
    ensures IsSet(env, "AWS_REGION") ==> c.region == env["AWS_REGION"]
    ensures !IsSet(env, "AWS_REGION") ==> c.region == DefaultRegion
    ensures IsSet(env, "S3_IMAGES_FOLDER") ==> c.folder == env["S3_IMAGES_FOLDER"]
    ensures !IsSet(env, "S3_IMAGES_FOLDER") ==> c.folder == DefaultFolder
    ensures "ALLOWED_FILE_TYPES" in env ==>
      && |c.allowedTypes| >= 1
      && (forall t :: t in c.allowedTypes ==> ',' !in t)
      && Join(c.allowedTypes, ',') == env["ALLOWED_FILE_TYPES"]
    ensures "ALLOWED_FILE_TYPES" !in env ==> c.allowedTypes == DefaultAllowedTypes
    ensures IsSet(env, "MAX_FILE_SIZE") ==> c.maxFileSize == ParseInt(env["MAX_FILE_SIZE"])
    ensures !IsSet(env, "MAX_FILE_SIZE") ==> c.maxFileSize == ParseInt(DefaultMaxFileSizeText)
  {
    var typesText := if "ALLOWED_FILE_TYPES" in env then env["ALLOWED_FILE_TYPES"] else "";
    JoinSplit(typesText, ',');
    Config(
      bucket := if "S3_BUCKET_NAME" in env then env["S3_BUCKET_NAME"] else "undefined",
      region := OrDefault(env, "AWS_REGION", DefaultRegion),
      folder := OrDefault(env, "S3_IMAGES_FOLDER", DefaultFolder),
      allowedTypes :=
        if "ALLOWED_FILE_TYPES" in env then Split(env["ALLOWED_FILE_TYPES"], ',')
        else DefaultAllowedTypes,
      maxFileSize := ParseInt(OrDefault(env, "MAX_FILE_SIZE", DefaultMaxFileSizeText)))
  }

  /** The length of the longest prefix of `s` made of digits in base `radix`. */
  function DigitRun(s: string, radix: nat): (n: nat)
    requires radix == 10 || radix == 16
    ensures n <= |s|
    ensures forall i :: 0 <= i < n ==> DigitValue(s[i], radix) >= 0
    ensures n < |s| ==> DigitValue(s[n], radix) < 0
    decreases |s|
  {
    if s == [] || DigitValue(s[0], radix) < 0 then 0 else 1 + DigitRun(s[1..], radix)
  }

  /** The optional sign `parseInt` accepts before the digits. */
  datatype Sign = Unsigned | Plus | Minus

  function SignText(sign: Sign): string {
    match sign
    case Unsigned => ""
    case Plus => "+"
    case Minus => "-"
  }

  /** `parseInt(s)` with no radix: skip leading white space, take an optional sign, then a
      "0x"/"0X" prefix selects base 16; the longest run of digits is read, and `NaN` comes
      out when that run is empty. */
  function ParseInt(s: string): (r: JsInt)
    ensures var t := TrimStart(s);
      t == [] || (!IsDigit(t[0]) && t[0] != '+' && t[0] != '-') ==> r == NaN
    ensures var t := TrimStart(s);
      t != [] && IsDigit(t[0]) && !HasHexPrefix(t) ==>
        r.Number? && r.value >= 0
    ensures r.Number? && r.value < 0 ==> TrimStart(s) != [] && TrimStart(s)[0] == '-'
  {
    ParseSigned(TrimStart(s))
  }

  /** `parseInt` after the leading white space: the sign, then the magnitude. */
  function ParseSigned(t: string): (r: JsInt)
    ensures t == [] || (!IsDigit(t[0]) && t[0] != '+' && t[0] != '-') ==> r == NaN
    ensures t != [] && IsDigit(t[0]) && !HasHexPrefix(t) ==>
      r.Number? && r.value >= 0
    ensures r.Number? && r.value < 0 ==> t != [] && t[0] == '-'
  {
    if t != [] && t[0] == '-' then WithSign(true, ParseMagnitude(t[1..]))
    else if t != [] && t[0] == '+' then WithSign(false, ParseMagnitude(t[1..]))
    else WithSign(false, ParseMagnitude(t))
  }

  /** `NaN` for no digits, otherwise the magnitude with its sign. */
  function WithSign(negative: bool, m: Option<nat>): (r: JsInt)
    ensures r.NaN? <==> m.None?
    ensures r.Number? ==> r.value == if negative then -(m.value as int) else m.value
  {
    match m
    case None => NaN
    case Some(v) => Number(if negative then -(v as int) else v)
  }

  /** The text starts with "0x" or "0X", which selects base 16. */
  predicate HasHexPrefix(u: string) {
    |u| >= 2 && u[0] == '0' && (u[1] == 'x' || u[1] == 'X')
  }

  /** The unsigned part of `parseInt`: the radix prefix, then the digit run, if any. */
  function ParseMagnitude(u: string): (r: Option<nat>)
    ensures u == [] || !IsDigit(u[0]) ==> r.None?
    ensures u != [] && IsDigit(u[0]) && !HasHexPrefix(u) ==> r.Some?
  {
    if HasHexPrefix(u) then ReadRun(u[2..], 16) else ReadRun(u, 10)
  }

  /** The value of the longest run of digits in base `radix` at the start of `w`, if any. */
  function ReadRun(w: string, radix: nat): (r: Option<nat>)
    requires radix == 10 || radix == 16
    ensures r.None? <==> w == [] || DigitValue(w[0], radix) < 0
  {
    var n := DigitRun(w, radix);
    if n == 0 then None else Some(RadixValue(w[..n], radix))
  }

  /** `parseInt` reads back what `String(n)` writes. */
  lemma ParseIntDecimal(n: nat)
    ensures ParseInt(Decimal(n)) == Number(n)
  {
    ParseIntLeadingNumber(n, "");
    assert Decimal(n) + "" == Decimal(n);
  }

  /** `parseInt` reads the decimal form of `n` at the start of a string and stops at the
      first character that can neither continue it nor turn a lone "0" into "0x". */
  lemma ParseIntLeadingNumber(n: nat, rest: string)
    requires rest == [] ||
      (!IsDigit(rest[0]) && (Decimal(n) == "0" ==> rest[0] != 'x' && rest[0] != 'X'))
    ensures ParseInt(Decimal(n) + rest) == Number(n)
  {
    var d := Decimal(n);
    var s := d + rest;
    assert s[0] == d[0];
    UnsignedDigits(s);
    MagnitudeOfLeadingDigits(d, rest);
    DecimalValue(n);
  }

  /** A string that starts with a digit has neither white space nor sign to skip. */
  lemma UnsignedDigits(s: string)
    requires s != [] && IsDigit(s[0])
    ensures ParseInt(s) == match ParseMagnitude(s) case None => NaN case Some(m) => Number(m)
  {
    assert TrimStart(s) == s;
  }

  /** Decimal digits followed by a character that can neither continue them nor turn a lone
      "0" into "0x" are read in base 10 up to that character. */
  lemma MagnitudeOfLeadingDigits(d: string, rest: string)
    requires d != [] && forall i :: 0 <= i < |d| ==> IsDigit(d[i])
    requires rest == [] || (!IsDigit(rest[0]) && (d == "0" ==> rest[0] != 'x' && rest[0] != 'X'))
    ensures ParseMagnitude(d + rest) == Some(RadixValue(d, 10))
  {
    var s := d + rest;
    NoHexPrefix(d, rest);
    DigitRunStops(d, rest, 10);
    assert s[..|d|] == d;
  }

  /** Decimal digits followed by no digit, and by no 'x' or 'X' after a lone "0", do not start
      with "0x". */
  lemma NoHexPrefix(d: string, rest: string)
    requires d != [] && forall i :: 0 <= i < |d| ==> IsDigit(d[i])
    requires rest == [] || (!IsDigit(rest[0]) && (d == "0" ==> rest[0] != 'x' && rest[0] != 'X'))
    ensures !HasHexPrefix(d + rest)
  {
    var s := d + rest;
    if |s| >= 2 {
      if |d| >= 2 {
        assert s[1] == d[1] && IsDigit(s[1]);
      } else {
        assert s[1] == rest[0];
        if d[0] == '0' {
          assert d == "0";
        }
      }
    }
  }

  /** The run of digits stops where the digits end. */
  lemma {:induction false} DigitRunStops(d: string, rest: string, radix: nat)
    requires radix == 10 || radix == 16
    requires forall i :: 0 <= i < |d| ==> DigitValue(d[i], radix) >= 0
    requires rest == [] || DigitValue(rest[0], radix) < 0
    ensures DigitRun(d + rest, radix) == |d|
    decreases |d|
  {
    if d != [] {
      assert (d + rest)[1..] == d[1..] + rest;
      DigitRunStops(d[1..], rest, radix);
    } else {
      assert d + rest == rest;
    }
  }

  /** "0x" or "0X", hexadecimal digits, then a character that is no hexadecimal digit: the
      digits are read in base 16. */
  lemma HexMagnitude(p: string, h: string, rest: string)
    requires p == "0x" || p == "0X"
    requires h != [] && forall i :: 0 <= i < |h| ==> DigitValue(h[i], 16) >= 0
    requires rest == [] || DigitValue(rest[0], 16) < 0
    ensures ParseMagnitude(p + (h + rest)) == Some(RadixValue(h, 16))
  {
    var u := p + (h + rest);
    assert u[..2] == p;
    assert u[2..] == h + rest;
    DigitRunStops(h, rest, 16);
    assert (h + rest)[..|h|] == h;
  }

  /** The sign step of `parseInt`: an optional '+' or '-' in front of text that starts with
      a digit applies to what the magnitude reads. */
  lemma SignedValue(sign: Sign, u: string, m: nat)
    requires u != [] && IsDigit(u[0])
    requires ParseMagnitude(u) == Some(m)
    ensures ParseSigned(SignText(sign) + u) == Number(if sign == Minus then -(m as int) else m)
  {
    var t := SignText(sign) + u;
    if sign == Unsigned {
      assert t == u;
    } else {
      assert t[0] == SignText(sign)[0];
      assert t[1..] == u;
    }
  }

  /** The value `parseInt` gives for decimal text: leading white space, an optional sign,
      decimal digits, then a character that can neither continue them nor turn a lone "0"
      into "0x". */
  lemma ParseIntDecimalValue(w: string, sign: Sign, d: string, rest: string)
    requires IsBlank(w)
    requires d != [] && forall i :: 0 <= i < |d| ==> IsDigit(d[i])
    requires rest == [] || (!IsDigit(rest[0]) && (d == "0" ==> rest[0] != 'x' && rest[0] != 'X'))
    ensures ParseInt(w + SignText(sign) + d + rest) ==
      Number(if sign == Minus then -(RadixValue(d, 10) as int) else RadixValue(d, 10))
  {
    Regroup(w, SignText(sign), d, rest);
    DecimalSigned(sign, d, rest);
    ParseIntAfterBlank(w, SignText(sign) + (d + rest));
  }

  /** `ParseIntDecimalValue` without the white space. */
  lemma DecimalSigned(sign: Sign, d: string, rest: string)
    requires d != [] && forall i :: 0 <= i < |d| ==> IsDigit(d[i])
    requires rest == [] || (!IsDigit(rest[0]) && (d == "0" ==> rest[0] != 'x' && rest[0] != 'X'))
    ensures !IsJsWhiteSpace((SignText(sign) + (d + rest))[0])
    ensures ParseSigned(SignText(sign) + (d + rest)) ==
      Number(if sign == Minus then -(RadixValue(d, 10) as int) else RadixValue(d, 10))
  {
    assert (d + rest)[0] == d[0];
    SignedText(sign, d + rest);
    MagnitudeOfLeadingDigits(d, rest);
    SignedValue(sign, d + rest, RadixValue(d, 10));
  }

  /** The value `parseInt` gives for hexadecimal text: leading white space, an optional
      sign, "0x" or "0X", hexadecimal digits, then a character that is no hexadecimal
      digit. */
  lemma ParseIntHexValue(w: string, sign: Sign, p: string, h: string, rest: string)
    requires IsBlank(w)
    requires p == "0x" || p == "0X"
    requires h != [] && forall i :: 0 <= i < |h| ==> DigitValue(h[i], 16) >= 0
    requires rest == [] || DigitValue(rest[0], 16) < 0
    ensures ParseInt(w + SignText(sign) + p + h + rest) ==
      Number(if sign == Minus then -(RadixValue(h, 16) as int) else RadixValue(h, 16))
  {
    Regroup(w, SignText(sign), p, h + rest);
    assert w + SignText(sign) + p + h + rest == w + SignText(sign) + p + (h + rest);
    HexSigned(sign, p, h, rest);
    ParseIntAfterBlank(w, SignText(sign) + (p + (h + rest)));
  }

  /** `ParseIntHexValue` without the white space. */
  lemma HexSigned(sign: Sign, p: string, h: string, rest: string)
    requires p == "0x" || p == "0X"
    requires h != [] && forall i :: 0 <= i < |h| ==> DigitValue(h[i], 16) >= 0
    requires rest == [] || DigitValue(rest[0], 16) < 0
    ensures !IsJsWhiteSpace((SignText(sign) + (p + (h + rest)))[0])
    ensures ParseSigned(SignText(sign) + (p + (h + rest))) ==
      Number(if sign == Minus then -(RadixValue(h, 16) as int) else RadixValue(h, 16))
  {
    assert (p + (h + rest))[0] == '0';
    SignedText(sign, p + (h + rest));
    HexMagnitude(p, h, rest);
    SignedValue(sign, p + (h + rest), RadixValue(h, 16));
  }

  /** When `parseInt` gives `NaN`: exactly when, after the white space and the optional sign,
      no decimal digit comes next, or "0x"/"0X" comes next with no hexadecimal digit after
      it. So "", "-", "+x", "- 5", "0x" and "0xg" all give `NaN`. */
  lemma ParseIntNaN(w: string, sign: Sign, u: string)
    requires IsBlank(w)
    requires sign == Unsigned ==> u == [] || (!IsJsWhiteSpace(u[0]) && u[0] != '+' && u[0] != '-')
    ensures ParseInt(w + SignText(sign) + u).NaN? <==>
      || u == [] || !IsDigit(u[0])
      || (HasHexPrefix(u) && (|u| == 2 || DigitValue(u[2], 16) < 0))
  {
    var t := SignText(sign) + u;
    assert w + SignText(sign) + u == w + t;
    if sign == Unsigned {
      assert t == u;
    } else {
      assert t[0] == SignText(sign)[0] && t[1..] == u;
    }
    ParseIntAfterBlank(w, t);
    MagnitudeNone(u);
  }

  /** The magnitude is missing exactly when no decimal digit starts the text, or "0x"/"0X"
      starts it with no hexadecimal digit after. */
  lemma MagnitudeNone(u: string)
    ensures ParseMagnitude(u).None? <==>
      || u == [] || !IsDigit(u[0])
      || (HasHexPrefix(u) && (|u| == 2 || DigitValue(u[2], 16) < 0))
  {
    if HasHexPrefix(u) && |u| > 2 {
      assert u[2..][0] == u[2];
    }
  }

  /** Leading white space is skipped up to the first other character. */
  lemma ParseIntAfterBlank(w: string, t: string)
    requires IsBlank(w)
    requires t == [] || !IsJsWhiteSpace(t[0])
    ensures ParseInt(w + t) == ParseSigned(t)
  {
    TrimStartAfterBlank(w, t);
  }

  lemma Regroup(a: string, b: string, c: string, e: string)
    ensures a + b + c + e == a + (b + (c + e))
  {
  }

  /** An optional sign before a digit does not start with white space. */
  lemma SignedText(sign: Sign, u: string)
    requires u != [] && IsDigit(u[0])
    ensures !IsJsWhiteSpace((SignText(sign) + u)[0])
  {
    assert (SignText(sign) + u)[0] == if sign == Unsigned then u[0] else SignText(sign)[0];
  }

  /** With nothing configured the constants are the documented defaults, and the size
      ceiling is 5 MiB. */
  lemma DefaultsWhenUnset(env: Env)
    requires forall name :: name in env ==> env[name] == ""
    requires "ALLOWED_FILE_TYPES" !in env && "S3_BUCKET_NAME" !in env
    ensures LoadConfig(env) == Config("undefined", DefaultRegion, DefaultFolder,
      DefaultAllowedTypes, Number(DefaultMaxFileSize))
  {
    DigitsOfDefault();
    ParseIntDecimal(DefaultMaxFileSize);
  }

  lemma DigitsOfDefault()
    ensures Decimal(DefaultMaxFileSize) == DefaultMaxFileSizeText
  {
    DecimalStep(5, 2);
    DecimalStep(52, 4);
    DecimalStep(524, 2);
    DecimalStep(5242, 8);
    DecimalStep(52428, 8);
    DecimalStep(524288, 0);
    assert DefaultMaxFileSize == 5242880;
    assert Decimal(5) == "5";
    assert Decimal(5242880) == "5" + "2" + "4" + "2" + "8" + "8" + "0";
  }

  lemma DecimalStep(q: nat, d: nat)
    requires q >= 1 && d < 10
    ensures Decimal(10 * q + d) == Decimal(q) + [DigitChar(d)]
  {
  }

  /** The variables `validateConfiguration` requires, in the order it checks them. */
  const RequiredVariables: seq<string> :=
    ["AWS_ACCESS_KEY_ID", "AWS_SECRET_ACCESS_KEY", "S3_BUCKET_NAME"]

  function MissingMessage(name: string): string {
    name + " no configurado"
  }

  /** Reference definition: one message per unset variable of `names`, in order. */
  function MissingAmong(names: seq<string>, env: Env): seq<string>
    decreases |names|
  {
    if names == [] then []
    else
      var head := if IsSet(env, names[0]) then [] else [MissingMessage(names[0])];
      head + MissingAmong(names[1..], env)
  }

  datatype ConfigCheck = ConfigCheck(valid: bool, errors: seq<string>)

  /** `ImageService.validateConfiguration`: an errors array filled by three checks, and
      `valid` exactly when it stayed empty. */
  function ValidateConfiguration(env: Env): (r: ConfigCheck)
    ensures r.valid <==> r.errors == []
    ensures r.errors == MissingAmong(RequiredVariables, env)
  {
    var afterAccessKey :=
      if !IsSet(env, "AWS_ACCESS_KEY_ID") then [MissingMessage("AWS_ACCESS_KEY_ID")] else [];
    var afterSecret := afterAccessKey +
      if !IsSet(env, "AWS_SECRET_ACCESS_KEY") then [MissingMessage("AWS_SECRET_ACCESS_KEY")] else [];
    var errors := afterSecret +
      if !IsSet(env, "S3_BUCKET_NAME") then [MissingMessage("S3_BUCKET_NAME")] else [];
    ConfigCheck(|errors| == 0, errors)
  }

  lemma MissingMessageInjective(a: string, b: string)
    requires MissingMessage(a) == MissingMessage(b)
    ensures a == b
  {
    assert a == MissingMessage(a)[..|a|];
    assert b == MissingMessage(b)[..|b|];
  }

  /** A variable's message is reported exactly when it is one of `names` and unset. */
  lemma {:induction false} MissingAmongExact(names: seq<string>, env: Env, name: string)
    ensures MissingMessage(name) in MissingAmong(names, env) <==> name in names && !IsSet(env, name)
    decreases |names|
  {
    if names != [] {
      MissingAmongExact(names[1..], env, name);
      if MissingMessage(name) == MissingMessage(names[0]) {
        MissingMessageInjective(name, names[0]);
      }
      assert names == [names[0]] + names[1..];
    }
  }

  /** The configuration is valid exactly when all three variables are set. */
  lemma ValidIffAllSet(env: Env)
    ensures ValidateConfiguration(env).valid <==>
      IsSet(env, "AWS_ACCESS_KEY_ID") && IsSet(env, "AWS_SECRET_ACCESS_KEY")
      && IsSet(env, "S3_BUCKET_NAME")
  {
  }
}
