/**
 * Authentication: the identity record, the `Authorization` header parser and
 * the filter that stores the parsed identity on the request.
 *
 * Java strings are sequences of UTF-16 code units; they are modelled as
 * `string`, a sequence of Unicode scalar values, so a surrogate pair is one
 * `char` and a lone surrogate has no counterpart. Every char the parser tests
 * or trims is at most U+0020 or ASCII, where the two readings agree.
 */
module Auth {
  import opened Wrappers

  datatype Role = Admin | User

  /** The identity of a request: a role and, for users, a user id (a nullable `Long`). */
  datatype AuthContext = AuthContext(role: Role, userId: Option<int>) {

    predicate IsAdmin() {
      role == Admin
    }

    /** Whether this identity owns a booking whose owner is `target` (a nullable `Long`). */
    predicate IsOwner(target: Option<int>) {
      userId.Some? && target.Some? && userId.value == target.value
    }
  }

  /**
   * Ownership needs a user id on both sides: an identity without one (the
   * administrator) owns nothing, nothing is owned through a missing owner, and
   * an owner's id is exactly the target.
   */
  lemma OwnerNeedsUserId(ctx: AuthContext, target: Option<int>)
    ensures ctx.userId.None? ==> !ctx.IsOwner(target)
    ensures !ctx.IsOwner(None)
    ensures ctx.IsOwner(target) <==> ctx.userId.Some? && target == ctx.userId
  {
  }

  const BearerPrefix := "Bearer "
  const AdminToken := "admin-token"
  const UserTokenPrefix := "user-token-"

  /** The range of a Java `long`. */
  const MinLong: int := -0x8000_0000_0000_0000
  const MaxLong: int := 0x7FFF_FFFF_FFFF_FFFF

  // ---------------------------------------------------------------------------
  // String.trim: drops every leading and trailing char at or below U+0020.

  predicate IsBlank(c: char) {
    c <= ' '
  }

  predicate AllBlank(s: string) {
    forall i :: 0 <= i < |s| ==> IsBlank(s[i])
  }

  /** How many leading characters `trim` drops. */
  function LeadingBlanks(s: string): (k: nat)
    ensures k <= |s|
    ensures AllBlank(s[..k])
    ensures k < |s| ==> !IsBlank(s[k])
  {
    if |s| > 0 && IsBlank(s[0]) then
      var k' := LeadingBlanks(s[1..]);
      assert forall i :: 1 <= i < 1 + k' ==> s[i] == s[1..][..k'][i - 1];
      1 + k'
    else 0
  }

  /** How many trailing characters `trim` drops. */
  function TrailingBlanks(s: string): (k: nat)
    ensures k <= |s|
    ensures AllBlank(s[|s| - k..])
    ensures k < |s| ==> !IsBlank(s[|s| - k - 1])
  {
    if |s| > 0 && IsBlank(s[|s| - 1]) then
      var init := s[..|s| - 1];
      var k' := TrailingBlanks(init);
      assert s[|s| - (1 + k')..] == init[|init| - k'..] + [s[|s| - 1]];
      AllBlankSnoc(init[|init| - k'..], s[|s| - 1]);
      assert 1 + k' < |s| ==> s[|s| - (1 + k') - 1] == init[|init| - k' - 1];
      1 + k'
    else 0
  }

  lemma AllBlankSnoc(a: string, c: char)
    requires AllBlank(a) && IsBlank(c)
    ensures AllBlank(a + [c])
  {
    assert forall i :: 0 <= i < |a| ==> (a + [c])[i] == a[i];
  }

  /**
   * Java's `String.trim`: the result is the input with a blank prefix and a
   * blank suffix removed, and it neither starts nor ends with a blank.
   */
  function Trim(s: string): (r: string)
    ensures exists i, j :: 0 <= i <= j <= |s| && r == s[i..j] && AllBlank(s[..i]) && AllBlank(s[j..])
    ensures r == [] || (!IsBlank(r[0]) && !IsBlank(r[|r| - 1]))
  {
    var i := LeadingBlanks(s);
    var rest := s[i..];
    var k := TrailingBlanks(rest);
    var j := i + |rest| - k;
    assert s[j..] == rest[|rest| - k..];
    var r := s[i..j];
    assert r == rest[..|rest| - k];
    assert r == [] || (r[0] == rest[0] && r[|r| - 1] == rest[|rest| - k - 1]);
    assert 0 <= i <= j <= |s| && AllBlank(s[..i]) && AllBlank(s[j..]);
    r
  }

  lemma {:induction false} LeadingBlanksOf(a: string, u: string)
    requires AllBlank(a)
    requires u == [] || !IsBlank(u[0])
    ensures LeadingBlanks(a + u) == |a|
  {
    if a != [] {
      assert (a + u)[1..] == a[1..] + u;
      LeadingBlanksOf(a[1..], u);
    }
  }

  lemma {:induction false} TrailingBlanksOf(u: string, b: string)
    requires AllBlank(b)
    requires u == [] || !IsBlank(u[|u| - 1])
    ensures TrailingBlanks(u + b) == |b|
  {
    if b != [] {
      assert (u + b)[..|u + b| - 1] == u + b[..|b| - 1];
      TrailingBlanksOf(u, b[..|b| - 1]);
    }
  }

  /** Trimming a text whose ends are not blank, padded with blanks, gives back that text. */
  lemma TrimPadded(a: string, t: string, b: string)
    requires AllBlank(a) && AllBlank(b)
    requires t == [] || (!IsBlank(t[0]) && !IsBlank(t[|t| - 1]))
    ensures Trim(a + t + b) == t
  {
    var s := a + t + b;
    if t == [] {
      assert s == (a + b) + [];
      LeadingBlanksOf(a + b, []);
    } else {
      assert s == a + (t + b);
      LeadingBlanksOf(a, t + b);
      assert s[|a|..] == t + b;
      TrailingBlanksOf(t, b);
      assert (t + b)[..|t|] == t;
    }
  }

  // ---------------------------------------------------------------------------
  // Long.parseLong and its inverse Long.toString, in base 10.

  predicate IsDigit(c: char) {
    '0' <= c <= '9'
  }

  predicate AllDigits(s: string) {
    forall i :: 0 <= i < |s| ==> IsDigit(s[i])
  }

  /** The number an all-digit string denotes in base 10. */
  function DigitsValue(s: string): nat
    requires AllDigits(s)
  {
    if s == [] then 0 else DigitsValue(s[..|s| - 1]) * 10 + (s[|s| - 1] as int - '0' as int)
  }

  /**
   * Java's `Long.parseLong(s)`: an optional `-` or `+`, then at least one
   * digit, and a value inside the `long` range; anything else is a
   * `NumberFormatException`, modelled as `None`.
   */
  function ParseLong(s: string): (r: Option<int>)
    ensures r.Some? ==> MinLong <= r.value <= MaxLong
    ensures r.Some? ==> |s| > 0 && (s[0] == '-' || s[0] == '+' || IsDigit(s[0]))
  {
    if |s| == 0 then None
    else
      var digits := if s[0] == '-' || s[0] == '+' then s[1..] else s;
      if |digits| == 0 || !AllDigits(digits) then None
      else
        var v: int := if s[0] == '-' then -(DigitsValue(digits) as int) else DigitsValue(digits);
        if MinLong <= v <= MaxLong then Some(v) else None
  }

  function DigitChar(d: nat): (c: char)
    requires d < 10
    ensures IsDigit(c) && c as int - '0' as int == d
  {
    ('0' as int + d) as char
  }

  /** The shortest base-10 numeral of `n`. */
  function Digits(n: nat): (s: string)
    ensures |s| > 0 && AllDigits(s)
  {
    if n < 10 then [DigitChar(n)] else Digits(n / 10) + [DigitChar(n % 10)]
  }

  /** Java's `Long.toString(n)`, extended to every integer. */
  function FormatLong(n: int): string {
    if n < 0 then "-" + Digits(-n) else Digits(n)
  }

  lemma {:induction false} DigitsValueOfDigits(n: nat)
    ensures DigitsValue(Digits(n)) == n
  {
    if n >= 10 {
      var s := Digits(n);
      DigitsValueOfDigits(n / 10);
      assert s[..|s| - 1] == Digits(n / 10);
    }
  }

  lemma ParseNegative(n: int)
    requires n < 0
    ensures ParseLong(FormatLong(n)) == if MinLong <= n then Some(n) else None
  {
    var s := FormatLong(n);
    var d := Digits(-n);
    assert s == "-" + d;
    assert s[0] == '-' && s[1..] == d;
    DigitsValueOfDigits(-n);
    assert -(DigitsValue(d) as int) == n;
  }

  lemma ParseNonNegative(n: int)
    requires n >= 0
    ensures ParseLong(FormatLong(n)) == if n <= MaxLong then Some(n) else None
  {
    var d := Digits(n);
    assert IsDigit(d[0]) && d[0] != '-' && d[0] != '+';
    DigitsValueOfDigits(n);
  }

  /** Parsing what `FormatLong` prints gives the number back exactly when it fits a `long`. */
  lemma ParseFormatLong(n: int)
    ensures ParseLong(FormatLong(n)) == if MinLong <= n <= MaxLong then Some(n) else None
  {
    if n < 0 {
      ParseNegative(n);
    } else {
      ParseNonNegative(n);
    }
  }

  /**
   * `Long.parseLong` accepts every in-range numeral, canonical or not: an
   * optional `-` or `+`, then any non-empty run of digits, leading zeros
   * included.
   */
  lemma ParseLongComplete(sign: string, d: string)
    requires sign == "" || sign == "-" || sign == "+"
    requires d != [] && AllDigits(d)
    requires MinLong <= (if sign == "-" then -(DigitsValue(d) as int) else DigitsValue(d)) <= MaxLong
    ensures ParseLong(sign + d) == Some(if sign == "-" then -(DigitsValue(d) as int) else DigitsValue(d))
  {
    var s := sign + d;
    if sign == "" {
      assert s == d;
      assert IsDigit(s[0]);
    } else {
      assert s[0] == sign[0] && s[1..] == d;
    }
  }

  /** Numerals `Long.toString` would never print are still read: "007", "+5" and "-0". */
  lemma ParseNonCanonicalNumerals()
    ensures ParseLong("007") == Some(7)
    ensures ParseLong("+5") == Some(5)
    ensures ParseLong("-0") == Some(0)
  {
    assert DigitsValue("00") == 0 by {
      assert "00"[..1] == "0";
      assert "0"[..0] == [];
    }
    assert "007"[..2] == "00";
    ParseLongComplete("", "007");
    assert "" + "007" == "007";
    assert "5"[..0] == [];
    ParseLongComplete("+", "5");
    assert "0"[..0] == [];
    ParseLongComplete("-", "0");
  }

  /** A run of digits without its redundant leading zeros; a lone "0" is kept. */
  function StripZeros(d: string): (r: string)
    ensures |r| <= |d|
  {
    if |d| > 1 && d[0] == '0' then StripZeros(d[1..]) else d
  }

  /**
   * The numeral `Long.toString` prints for a text `Long.parseLong` accepts:
   * a `+` is dropped, redundant leading zeros are dropped, and `-0` is `0`.
   */
  function Canonical(s: string): string {
    if |s| == 0 then s
    else
      SignedNumeral(s[0] == '-', StripZeros(if s[0] == '-' || s[0] == '+' then s[1..] else s))
  }

  /** A digit run with a minus sign in front when it is negative and not zero. */
  function SignedNumeral(negative: bool, m: string): string {
    if negative && m != "0" then "-" + m else m
  }

  lemma {:induction false} DigitsValueLeadingZero(d: string)
    requires AllDigits(d)
    ensures AllDigits("0" + d) && DigitsValue("0" + d) == DigitsValue(d)
  {
    var e := "0" + d;
    if d == [] {
      assert e[..0] == [];
    } else {
      var p := d[..|d| - 1];
      assert AllDigits(p);
      assert e[..|e| - 1] == "0" + p;
      DigitsValueLeadingZero(p);
    }
  }

  lemma {:induction false} DigitsValuePositive(d: string)
    requires d != [] && AllDigits(d) && d[0] != '0'
    ensures DigitsValue(d) >= 1
  {
    var p := d[..|d| - 1];
    if p != [] {
      assert AllDigits(p) && p[0] == d[0];
      DigitsValuePositive(p);
    }
  }

  /** A numeral without redundant leading zeros is what `Digits` prints for its value. */
  lemma {:induction false} DigitsOfValue(d: string)
    requires d != [] && AllDigits(d) && (d[0] != '0' || |d| == 1)
    ensures Digits(DigitsValue(d)) == d
  {
    var n := DigitsValue(d);
    var c := d[|d| - 1];
    var p := d[..|d| - 1];
    assert AllDigits(p);
    if |d| == 1 {
      assert p == [] && DigitsValue(p) == 0;
      assert n == c as int - '0' as int;
      assert DigitChar(n) == c;
    } else {
      assert p[0] == d[0];
      DigitsValuePositive(p);
      DigitsOfValue(p);
      assert n / 10 == DigitsValue(p) && n % 10 == c as int - '0' as int;
      assert DigitChar(n % 10) == c;
      assert d == p + [c];
    }
  }

  lemma {:induction false} StripZerosValue(d: string)
    requires d != [] && AllDigits(d)
    ensures var m := StripZeros(d);
      m != [] && AllDigits(m) && (m[0] != '0' || |m| == 1) && DigitsValue(m) == DigitsValue(d)
  {
    if |d| > 1 && d[0] == '0' {
      var t := d[1..];
      assert AllDigits(t);
      StripZerosValue(t);
      assert d == "0" + t;
      DigitsValueLeadingZero(t);
    }
  }

  /** Dropping redundant zeros keeps the value, and the result is what `Digits` prints for it. */
  lemma StripZerosDigits(d: string)
    requires d != [] && AllDigits(d)
    ensures Digits(DigitsValue(d)) == StripZeros(d)
    ensures DigitsValue(d) > 0 ==> StripZeros(d) != "0"
  {
    var m := StripZeros(d);
    StripZerosValue(d);
    DigitsOfValue(m);
    if m == "0" {
      assert m[..0] == [];
      assert DigitsValue(m) == 0;
    }
  }

  /** Printing the value of a digit run, negated or not, gives the run without redundant zeros, signed unless zero. */
  lemma FormatDigitsValue(d: string, negative: bool)
    requires d != [] && AllDigits(d)
    ensures FormatLong(if negative then -(DigitsValue(d) as int) else DigitsValue(d)) ==
            SignedNumeral(negative, StripZeros(d))
  {
    StripZerosDigits(d);
    FormatSigned(DigitsValue(d), StripZeros(d), negative);
  }

  /** Printing `n` or `-n` is the numeral of `n`, signed unless `n` is zero. */
  lemma FormatSigned(n: nat, m: string, negative: bool)
    requires Digits(n) == m
    requires n > 0 ==> m != "0"
    ensures FormatLong(if negative then -(n as int) else n) == SignedNumeral(negative, m)
  {
    if negative && n > 0 {
      FormatNegative(n);
    } else if negative {
      DigitsZero();
      FormatNonNegative(0);
    } else {
      FormatNonNegative(n);
    }
  }

  lemma DigitsZero()
    ensures Digits(0) == "0"
  {
  }

  lemma FormatNegative(n: nat)
    requires n > 0
    ensures FormatLong(-(n as int)) == "-" + Digits(n)
  {
  }

  lemma FormatNonNegative(n: nat)
    ensures FormatLong(n) == Digits(n)
  {
  }

  /**
   * What `ParseLong` accepts is an optional sign followed by at least one
   * digit and nothing else, and the number it reads is the one whose
   * `FormatLong` numeral is the text in canonical form.
   */
  lemma ParseLongSound(s: string)
    requires ParseLong(s).Some?
    ensures var d := if s[0] == '-' || s[0] == '+' then s[1..] else s;
      d != [] && AllDigits(d)
    ensures FormatLong(ParseLong(s).value) == Canonical(s)
  {
    var d := if s[0] == '-' || s[0] == '+' then s[1..] else s;
    assert d != [] && AllDigits(d);
    FormatDigitsValue(d, s[0] == '-');
  }

  // ---------------------------------------------------------------------------
  // AuthFilter

  /**
   * `AuthFilter.parse`: the identity carried by an `Authorization` header, in
   * the bearer form of section 2.1 of RFC 6750. The token is what follows
   * "Bearer ", trimmed; "admin-token" is the administrator and
   * "user-token-<long>" the user with that id; anything else is anonymous.
   */
  function Parse(header: Option<string>): (r: Option<AuthContext>)
    ensures r.Some? ==> header.Some? && BearerPrefix <= header.value
    ensures r.Some? ==> r.value == AuthContext(Admin, None) ||
                        (r.value.role == User && r.value.userId.Some? &&
                         MinLong <= r.value.userId.value <= MaxLong)
  {
    if header.None? || !(BearerPrefix <= header.value) then None
    else
      var token := Trim(header.value[|BearerPrefix|..]);
      if token == AdminToken then Some(AuthContext(Admin, None))
      else if UserTokenPrefix <= token then
        match ParseLong(token[|UserTokenPrefix|..])
        case Some(uid) => Some(AuthContext(User, Some(uid)))
        case None => None
      else None
  }

  /** A header that does not start with the case-sensitive "Bearer " is anonymous. */
  lemma ParseNeedsBearer(header: string)
    requires !(BearerPrefix <= header)
    ensures Parse(Some(header)) == None && Parse(None) == None
  {
  }

  /** The token of "Bearer ", blanks, `t` and blanks is `t`. */
  lemma BearerToken(pad1: string, t: string, pad2: string)
    requires AllBlank(pad1) && AllBlank(pad2)
    requires t == [] || (!IsBlank(t[0]) && !IsBlank(t[|t| - 1]))
    ensures var h := BearerPrefix + pad1 + t + pad2;
      BearerPrefix <= h && Trim(h[|BearerPrefix|..]) == t
  {
    var h := BearerPrefix + pad1 + t + pad2;
    var u := pad1 + t + pad2;
    assert h == BearerPrefix + u;
    assert h[|BearerPrefix|..] == u;
    TrimPadded(pad1, t, pad2);
  }

  /** "Bearer admin-token", with any blanks around the token, is the administrator. */
  lemma ParseAdminToken(pad1: string, pad2: string)
    requires AllBlank(pad1) && AllBlank(pad2)
    ensures Parse(Some(BearerPrefix + pad1 + AdminToken + pad2)) == Some(AuthContext(Admin, None))
  {
    BearerToken(pad1, AdminToken, pad2);
  }

  /** The token a user with id `n` presents: it is not the admin token and has no blank ends. */
  lemma UserTokenShape(n: int)
    ensures var token := UserTokenPrefix + FormatLong(n);
      && !IsBlank(token[0]) && !IsBlank(token[|token| - 1])
      && token != AdminToken
      && UserTokenPrefix <= token
      && token[|UserTokenPrefix|..] == FormatLong(n)
  {
    var token := UserTokenPrefix + FormatLong(n);
    var digits := Digits(if n < 0 then -n else n);
    assert IsDigit(digits[|digits| - 1]);
    assert token[|token| - 1] == digits[|digits| - 1];
    assert token[0] != AdminToken[0];
  }

  /**
   * "Bearer user-token-<n>", with any blanks around the token, is user `n`
   * when `n` fits a `long`, and anonymous otherwise.
   */
  lemma ParseUserToken(n: int, pad1: string, pad2: string)
    requires AllBlank(pad1) && AllBlank(pad2)
    ensures Parse(Some(BearerPrefix + pad1 + UserTokenPrefix + FormatLong(n) + pad2)) ==
            if MinLong <= n <= MaxLong then Some(AuthContext(User, Some(n))) else None
  {
    var token := UserTokenPrefix + FormatLong(n);
    assert BearerPrefix + pad1 + UserTokenPrefix + FormatLong(n) + pad2 == BearerPrefix + pad1 + token + pad2;
    UserTokenShape(n);
    ParseFormatLong(n);
    if MinLong <= n <= MaxLong {
      assert KnownToken(token, AuthContext(User, Some(n)));
      ParseKnownToken(pad1, token, pad2, AuthContext(User, Some(n)));
    } else {
      ParseOtherToken(pad1, token, pad2);
    }
  }

  /** A "user-token-" with nothing after it is anonymous. */
  lemma ParseEmptyUserToken()
    ensures Parse(Some(BearerPrefix + UserTokenPrefix)) == None
  {
    var t := UserTokenPrefix;
    assert t[|UserTokenPrefix|..] == [];
    assert BearerPrefix + UserTokenPrefix == BearerPrefix + [] + t + [];
    ParseOtherToken([], t, []);
  }

  /**
   * The tokens the parser recognises: "admin-token" is the administrator,
   * and "user-token-" followed by a text `ParseLong` accepts is the user with
   * that number.
   */
  predicate KnownToken(t: string, c: AuthContext) {
    || (t == AdminToken && c == AuthContext(Admin, None))
    || (UserTokenPrefix <= t && ParseLong(t[|UserTokenPrefix|..]).Some? &&
        c == AuthContext(User, ParseLong(t[|UserTokenPrefix|..])))
  }

  lemma ParseTrimmedToken(h: string)
    requires Parse(Some(h)).Some?
    ensures BearerPrefix <= h && KnownToken(Trim(h[|BearerPrefix|..]), Parse(Some(h)).value)
  {
  }

  /**
   * Every identity the parser produces comes from "Bearer " + blanks + token
   * + blanks where the token is a known one and the identity is the one it
   * names.
   */
  lemma ParseOnlyKnownTokens(h: string)
    requires Parse(Some(h)).Some?
    ensures exists pad1, t, pad2 ::
      && AllBlank(pad1) && AllBlank(pad2) && h == BearerPrefix + pad1 + t + pad2
      && KnownToken(t, Parse(Some(h)).value)
  {
    ParseTrimmedToken(h);
    var t := Trim(h[|BearerPrefix|..]);
    BearerPadded(h);
    var pad1, pad2 :| AllBlank(pad1) && AllBlank(pad2) && h == BearerPrefix + pad1 + t + pad2;
    assert KnownToken(t, Parse(Some(h)).value);
  }

  /** A header starting with "Bearer " is the prefix, blanks, its trimmed token and blanks. */
  lemma BearerPadded(h: string)
    requires BearerPrefix <= h
    ensures exists pad1, pad2 ::
      AllBlank(pad1) && AllBlank(pad2) && h == BearerPrefix + pad1 + Trim(h[|BearerPrefix|..]) + pad2
  {
    var s := h[|BearerPrefix|..];
    var t := Trim(s);
    var i, j :| 0 <= i <= j <= |s| && t == s[i..j] && AllBlank(s[..i]) && AllBlank(s[j..]);
    PrefixSplit(BearerPrefix, h);
    Padded(h, BearerPrefix, s, t, i, j);
  }

  /** `p + s`, where `s` is `t` between blank runs, is `p`, blanks, `t` and blanks. */
  lemma Padded(h: string, p: string, s: string, t: string, i: int, j: int)
    requires h == p + s
    requires 0 <= i <= j <= |s| && t == s[i..j] && AllBlank(s[..i]) && AllBlank(s[j..])
    ensures exists pad1, pad2 :: AllBlank(pad1) && AllBlank(pad2) && h == p + pad1 + t + pad2
  {
    Reassemble(p, s, i, j);
  }

  lemma PrefixSplit(p: string, h: string)
    requires p <= h
    ensures h == p + h[|p|..]
  {
  }

  lemma Reassemble(p: string, s: string, i: int, j: int)
    requires 0 <= i <= j <= |s|
    ensures p + s == p + s[..i] + s[i..j] + s[j..]
  {
    assert s == s[..i] + s[i..j] + s[j..];
  }

  /**
   * The converse of `ParseOnlyKnownTokens`: a known token, with any blanks
   * around it, gives exactly the identity it names.
   */
  lemma ParseKnownToken(pad1: string, t: string, pad2: string, c: AuthContext)
    requires AllBlank(pad1) && AllBlank(pad2)
    requires t == [] || (!IsBlank(t[0]) && !IsBlank(t[|t| - 1]))
    requires KnownToken(t, c)
    ensures Parse(Some(BearerPrefix + pad1 + t + pad2)) == Some(c)
  {
    BearerToken(pad1, t, pad2);
  }

  /** "Bearer user-token-007" is user 7, as `Long.parseLong` reads it. */
  lemma ParseZeroPaddedUserToken()
    ensures Parse(Some("Bearer user-token-007")) == Some(AuthContext(User, Some(7)))
  {
    var t := "user-token-007";
    assert t[|UserTokenPrefix|..] == "007";
    ParseNonCanonicalNumerals();
    assert KnownToken(t, AuthContext(User, Some(7)));
    assert "Bearer user-token-007" == BearerPrefix + [] + t + [];
    ParseKnownToken([], t, [], AuthContext(User, Some(7)));
  }

  /**
   * Any other token gives no identity: a blank-padded token that is neither
   * "admin-token" nor "user-token-" followed by a text `ParseLong` accepts.
   */
  lemma ParseOtherToken(pad1: string, t: string, pad2: string)
    requires AllBlank(pad1) && AllBlank(pad2)
    requires t == [] || (!IsBlank(t[0]) && !IsBlank(t[|t| - 1]))
    requires t != AdminToken
    requires !(UserTokenPrefix <= t && ParseLong(t[|UserTokenPrefix|..]).Some?)
    ensures Parse(Some(BearerPrefix + pad1 + t + pad2)) == None
  {
    BearerToken(pad1, t, pad2);
  }

  /** A user token whose number is followed by other text gives no identity. */
  lemma ParseNonNumericUserToken()
    ensures Parse(Some("Bearer user-token-12x")) == None
  {
    var t := "user-token-12x";
    assert t[|UserTokenPrefix|..] == "12x";
    assert !AllDigits("12x") by {
      assert !IsDigit("12x"[2]);
    }
    assert "Bearer user-token-12x" == BearerPrefix + [] + t + [];
    ParseOtherToken([], t, []);
  }

  /**
   * A parsed administrator owns nothing, so it may act on a booking only
   * through `isAdmin`; a parsed user owns its own id.
   */
  lemma ParsedAdminIsNeverOwner(header: Option<string>, target: Option<int>)
    requires Parse(header).Some?
    ensures Parse(header).value.IsAdmin() ==> !Parse(header).value.IsOwner(target)
    ensures !Parse(header).value.IsAdmin() ==> Parse(header).value.IsOwner(Parse(header).value.userId)
  {
  }

  /** The paths that the filter passes through without looking at the header. */
  predicate IsPublicPath(uri: string): (ok: bool)
    ensures ok <==> "/v3/api-docs" <= uri || "/swagger-ui" <= uri || "/docs" <= uri
    ensures ok ==> "/" <= uri
  {
    "/v3/api-docs" <= uri || "/swagger-ui" <= uri || uri == "/swagger-ui.html" || "/docs" <= uri
  }

  /** The part of an HTTP request the filter reads and writes. */
  class Request {
    const uri: string
    const authorization: Option<string>
    /** The request attribute "AUTH_CTX". */
    var authCtx: Option<AuthContext>

    constructor (uri: string, authorization: Option<string>)
      ensures this.uri == uri && this.authorization == authorization && authCtx == None
    {
      this.uri := uri;
      this.authorization := authorization;
      authCtx := None;
    }
  }

  /**
   * `AuthFilter.doFilter` up to handing the request on: public paths are
   * left alone; on any other path the attribute is set to the parsed identity,
   * or removed when there is none.
   */
  method DoFilter(req: Request)
    modifies req
    ensures IsPublicPath(req.uri) ==> req.authCtx == old(req.authCtx)
    ensures !IsPublicPath(req.uri) ==> req.authCtx == Parse(req.authorization)
  {
    if IsPublicPath(req.uri) {
      return;
    }
    var ctx := Parse(req.authorization);
    if ctx.Some? {
      req.authCtx := ctx;
    } else {
      req.authCtx := None;
    }
  }
}
