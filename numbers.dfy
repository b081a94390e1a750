/**
 * int.TryParse(string, out int) with the default NumberStyles.Integer and the invariant
 * culture's signs, and the decimal form Int32.ToString() produces, on `string` as chars.
 * The accepted shape is: white space, an optional '+' or '-', one or more ASCII digits,
 * white space, then nothing but NUL characters; a value outside the 32-bit range fails.
 */
module Numbers {
  import opened Bytes
  import opened Results

  /** The white space number parsing skips: U+0009 to U+000D and U+0020. */
  predicate IsParseWhite(c: char) {
    c == ' ' || ('\t' <= c <= '\r')
  }

  predicate AllParseWhite(s: string) {
    forall i :: 0 <= i < |s| ==> IsParseWhite(s[i])
  }

  predicate IsDigit(c: char) {
    '0' <= c <= '9'
  }

  predicate AllDigits(s: string) {
    forall i :: 0 <= i < |s| ==> IsDigit(s[i])
  }

  predicate AllNul(s: string) {
    forall i :: 0 <= i < |s| ==> s[i] == '\0'
  }

  /** The string without its leading parse white space. */
  function SkipWhite(s: string): (r: string)
    ensures |r| <= |s| && AllParseWhite(s[..|s| - |r|])
    ensures r != [] ==> !IsParseWhite(r[0])
  {
    if s != [] && IsParseWhite(s[0]) then SkipWhite(s[1..]) else s
  }

  /** What SkipWhite leaves is a suffix of its argument. */
  lemma {:induction false} SkipWhiteSuffix(s: string)
    ensures SkipWhite(s) == s[|s| - |SkipWhite(s)|..]
    decreases |s|
  {
    if s != [] && IsParseWhite(s[0]) {
      SkipWhiteSuffix(s[1..]);
    }
  }

  /** The length of the run of ASCII digits at the start of `s`. */
  function DigitRun(s: string): (n: nat)
    ensures n <= |s| && AllDigits(s[..n])
    ensures n < |s| ==> !IsDigit(s[n])
  {
    if s != [] && IsDigit(s[0]) then
      var n := 1 + DigitRun(s[1..]);
      assert forall i :: 1 <= i < n ==> s[..n][i] == s[1..][..n - 1][i - 1];
      n
    else 0
  }

  /** The optional sign NumberStyles.AllowLeadingSign allows. */
  predicate IsSign(sg: string) {
    sg == "" || sg == "+" || sg == "-"
  }

  /** The number a string of decimal digits denotes, most significant digit first. */
  function DecimalValue(ds: string): (v: nat)
    requires AllDigits(ds)
  {
    if ds == [] then 0
    else 10 * DecimalValue(ds[..|ds| - 1]) + (ds[|ds| - 1] as int - '0' as int)
  }

  /** The number a sign followed by decimal digits denotes. */
  function Denoted(sg: string, ds: string): int
    requires AllDigits(ds)
  {
    if sg == "-" then -(DecimalValue(ds) as int) else DecimalValue(ds) as int
  }

  /** The decimal digits of n, with no leading zero except for 0 itself. */
  function DecimalDigits(n: nat): (ds: string)
    ensures ds != [] && AllDigits(ds)
    ensures |ds| > 1 ==> ds[0] != '0'
    decreases n
  {
    var last := ((n % 10) + '0' as int) as char;
    if n < 10 then [last] else DecimalDigits(n / 10) + [last]
  }

  /** Int32.ToString() in the invariant culture. */
  function Format(x: int32): (s: string)
    ensures s != [] && (s[0] == '-' || IsDigit(s[0]))
    ensures s[0] == '-' <==> x < 0
  {
    if x < 0 then "-" + DecimalDigits(-(x as int)) else DecimalDigits(x as int)
  }

  /** The unsigned part: a digit run, then only white space and NULs. */
  function ParseMagnitude(u: string): (r: Option<nat>)
    ensures r.Some? ==> u != [] && IsDigit(u[0])
  {
    var n := DigitRun(u);
    if n == 0 || !AllNul(SkipWhite(u[n..])) then None else Some(DecimalValue(u[..n]))
  }

  /** After the leading white space: an optional sign, then the unsigned part. */
  function ParseSigned(t: string): (r: Option<int>)
    ensures r.Some? ==> t != [] && (IsDigit(t[0]) || ((t[0] == '-' || t[0] == '+') && |t| > 1 && IsDigit(t[1])))
    ensures r.Some? && r.value < 0 ==> t[0] == '-'
  {
    var signed := t != [] && (t[0] == '-' || t[0] == '+');
    var u := if signed then t[1..] else t;
    match ParseMagnitude(u)
    case None => None
    case Some(m) => if signed && t[0] == '-' then Some(-(m as int)) else Some(m as int)
  }

  /** int.TryParse: None where it returns false, Some(value) where it returns true. */
  function TryParseInt32(s: string): (r: Option<int32>)
    ensures r.Some? ==> exists i | 0 <= i < |s| :: IsDigit(s[i])
  {
    SignedNeedsDigit(s);
    match ParseSigned(SkipWhite(s))
    case None => None
    case Some(v) => if -0x8000_0000 <= v < 0x8000_0000 then Some(v as int32) else None
  }

  /** Reading back the digits of n gives n. */
  lemma {:induction false} DecimalValueOfDigits(n: nat)
    ensures DecimalValue(DecimalDigits(n)) == n
    decreases n
  {
    var ds := DecimalDigits(n);
    if n >= 10 {
      assert ds[..|ds| - 1] == DecimalDigits(n / 10);
      DecimalValueOfDigits(n / 10);
    }
  }

  /** White space in front of a string that does not start with white space is skipped entirely. */
  lemma {:induction false} SkipWhiteOfPadded(pre: string, rest: string)
    requires AllParseWhite(pre) && (rest == [] || !IsParseWhite(rest[0]))
    ensures SkipWhite(pre + rest) == rest
    decreases |pre|
  {
    if pre != [] {
      assert (pre + rest)[1..] == pre[1..] + rest;
      SkipWhiteOfPadded(pre[1..], rest);
    }
  }

  /** The digit run of digits followed by something that does not start with a digit is those digits. */
  lemma {:induction false} DigitRunOfDigits(ds: string, rest: string)
    requires AllDigits(ds) && (rest == [] || !IsDigit(rest[0]))
    ensures DigitRun(ds + rest) == |ds|
    decreases |ds|
  {
    if ds != [] {
      assert (ds + rest)[1..] == ds[1..] + rest;
      DigitRunOfDigits(ds[1..], rest);
    }
  }

  /** Digits followed by white space and then NULs parse as the number the digits denote. */
  lemma {:induction false} MagnitudeOfDigits(ds: string, post: string, z: string)
    requires ds != [] && AllDigits(ds) && AllParseWhite(post) && AllNul(z)
    ensures ParseMagnitude(ds + post + z) == Some(DecimalValue(ds))
  {
    var tail := post + z;
    var u := ds + tail;
    assert ds + post + z == u;
    assert tail != [] ==> tail[0] == (if post != [] then post[0] else z[0]);
    DigitRunOfDigits(ds, tail);
    assert u[..|ds|] == ds && u[|ds|..] == tail;
    SkipWhiteOfPadded(post, z);
  }

  /** Everything ParseMagnitude accepts is digits, then white space, then NULs, read as the digits' value. */
  lemma MagnitudeSound(u: string) returns (ds: string, post: string, z: string)
    requires ParseMagnitude(u).Some?
    ensures u == ds + post + z && ds != [] && AllDigits(ds) && AllParseWhite(post) && AllNul(z)
    ensures ParseMagnitude(u) == Some(DecimalValue(ds))
  {
    var n := DigitRun(u);
    ds := u[..n];
    var rest := u[n..];
    z := SkipWhite(rest);
    SkipWhiteSuffix(rest);
    post := rest[..|rest| - |z|];
    assert rest == post + z;
    assert u == ds + rest;
  }

  /** With no sign in front, ParseSigned is the unsigned part's value. */
  lemma ParseSignedUnsigned(t: string, v: nat)
    requires t != [] && IsDigit(t[0]) && ParseMagnitude(t) == Some(v)
    ensures ParseSigned(t) == Some(v as int)
  {
    assert t[0] != '-' && t[0] != '+';
  }

  /** Unsigned digits followed by white space parse as the number they denote. */
  lemma ParseSignedOfDigits(ds: string, post: string)
    requires ds != [] && AllDigits(ds) && AllParseWhite(post)
    ensures ParseSigned(ds + post) == Some(DecimalValue(ds) as int)
  {
    MagnitudeOfDigits(ds, post, []);
    assert ds + post + [] == ds + post;
    assert (ds + post)[0] == ds[0];
    ParseSignedUnsigned(ds + post, DecimalValue(ds));
  }

  /** A minus sign, digits and white space parse as the negated number. */
  lemma ParseSignedOfNegative(ds: string, post: string)
    requires ds != [] && AllDigits(ds) && AllParseWhite(post)
    ensures ParseSigned("-" + ds + post) == Some(-(DecimalValue(ds) as int))
  {
    var t := "-" + ds + post;
    assert AllNul([]);
    assert t + [] == t;
    ParseSignedOfText("-", ds, post, []);
  }

  /** An optional sign, digits, white space and NULs parse as the signed number they denote. */
  lemma ParseSignedOfText(sg: string, ds: string, post: string, z: string)
    requires IsSign(sg) && ds != [] && AllDigits(ds) && AllParseWhite(post) && AllNul(z)
    ensures ParseSigned(sg + ds + post + z) == Some(Denoted(sg, ds))
  {
    MagnitudeOfDigits(ds, post, z);
    var u := ds + post + z;
    var t := sg + ds + post + z;
    assert t == sg + u;
    assert u[0] == ds[0];
    if sg == "" {
      assert t == u;
      ParseSignedUnsigned(t, DecimalValue(ds));
    } else {
      assert t[0] == sg[0] && t[1..] == u;
      assert ParseSigned(t) == Some(if sg == "-" then -(DecimalValue(ds) as int) else DecimalValue(ds) as int);
    }
  }

  /** ParseSigned splits off the optional sign and reads the rest as the unsigned part. */
  lemma SignSplit(t: string) returns (sg: string, u: string)
    requires ParseSigned(t).Some?
    ensures IsSign(sg) && t == sg + u && ParseMagnitude(u).Some?
    ensures var m := ParseMagnitude(u).value as int; ParseSigned(t) == Some(if sg == "-" then -m else m)
  {
    if t != [] && (t[0] == '-' || t[0] == '+') {
      sg := if t[0] == '-' then "-" else "+";
      u := t[1..];
      assert t == sg + u;
    } else {
      sg, u := "", t;
    }
  }

  /**
   * Everything ParseSigned accepts is an optional sign, digits, white space and NULs, read as
   * the signed number they denote.
   */
  lemma SignedSound(t: string) returns (sg: string, ds: string, post: string, z: string)
    requires ParseSigned(t).Some?
    ensures t == sg + ds + post + z && IsSign(sg) && ds != [] && AllDigits(ds) && AllParseWhite(post) && AllNul(z)
    ensures ParseSigned(t) == Some(Denoted(sg, ds))
  {
    var u;
    sg, u := SignSplit(t);
    ds, post, z := MagnitudeSound(u);
    assert t == sg + (ds + post + z);
  }

  /** TryParse is ParseSigned after the leading white space, with the 32-bit range check. */
  lemma {:induction false} TryParseOfPadded(pre: string, t: string, v: int)
    requires AllParseWhite(pre) && t != [] && !IsParseWhite(t[0])
    requires ParseSigned(t) == Some(v)
    ensures TryParseInt32(pre + t) == if -0x8000_0000 <= v < 0x8000_0000 then Some(v as int32) else None
  {
    SkipWhiteOfPadded(pre, t);
  }

  /**
   * TryParse reads back what ToString writes, for every 32-bit value, with any parse white
   * space around it.
   */
  lemma {:induction false} ParseFormat(x: int32, pre: string, post: string)
    requires AllParseWhite(pre) && AllParseWhite(post)
    ensures TryParseInt32(pre + Format(x) + post) == Some(x)
  {
    var f := Format(x);
    assert pre + f + post == pre + (f + post);
    if x < 0 {
      var ds := DecimalDigits(-(x as int));
      DecimalValueOfDigits(-(x as int));
      ParseSignedOfNegative(ds, post);
      assert f + post == "-" + ds + post;
    } else {
      var ds := DecimalDigits(x as int);
      DecimalValueOfDigits(x as int);
      ParseSignedOfDigits(ds, post);
    }
    TryParseOfPadded(pre, f + post, x as int);
  }

  /**
   * What TryParse accepts: white space, an optional sign, digits, white space and NULs, where
   * the signed number denoted is in the 32-bit range; together with TryParseSound an iff.
   */
  lemma TryParseComplete(pre: string, sg: string, ds: string, post: string, z: string)
    requires AllParseWhite(pre) && IsSign(sg) && ds != [] && AllDigits(ds) && AllParseWhite(post) && AllNul(z)
    ensures var v := Denoted(sg, ds);
      TryParseInt32(pre + sg + ds + post + z) == if -0x8000_0000 <= v < 0x8000_0000 then Some(v as int32) else None
  {
    ParseSignedOfText(sg, ds, post, z);
    var t := Regroup(pre, sg, ds, post, z);
    TryParseOfPadded(pre, t, Denoted(sg, ds));
  }

  /**
   * Every string TryParse accepts has that shape, and the value returned is the signed number
   * its digits denote.
   */
  lemma TryParseSound(s: string) returns (pre: string, sg: string, ds: string, post: string, z: string)
    requires TryParseInt32(s).Some?
    ensures s == pre + sg + ds + post + z && AllParseWhite(pre) && IsSign(sg)
    ensures ds != [] && AllDigits(ds) && AllParseWhite(post) && AllNul(z)
    ensures TryParseInt32(s).value as int == Denoted(sg, ds)
  {
    var t;
    pre, t := WhiteSplit(s);
    sg, ds, post, z := SignedSound(t);
    var t' := Regroup(pre, sg, ds, post, z);
  }

  /** The numeral after its leading white space, which starts with the sign or else the first digit. */
  lemma Regroup(pre: string, sg: string, ds: string, post: string, z: string) returns (t: string)
    requires ds != []
    ensures t == sg + ds + post + z && pre + sg + ds + post + z == pre + t
    ensures t[0] == if sg == "" then ds[0] else sg[0]
  {
    t := sg + ds + post + z;
    assert t == sg + (ds + post + z);
  }

  /** TryParse splits off the leading white space and reads the rest with ParseSigned. */
  lemma WhiteSplit(s: string) returns (pre: string, t: string)
    requires TryParseInt32(s).Some?
    ensures AllParseWhite(pre) && s == pre + t && ParseSigned(t).Some?
    ensures TryParseInt32(s).value as int == ParseSigned(t).value
  {
    t := SkipWhite(s);
    SkipWhiteSuffix(s);
    pre := s[..|s| - |t|];
    assert s == pre + t;
  }

  /** Text after the digits that is neither white space nor NUL makes TryParse fail. */
  lemma TryParseRejectsTrailing()
    ensures TryParseInt32("2x") == None && TryParseInt32("1 2") == None
  {
  }

  /** Only a string with an ASCII digit in it has a signed reading after its white space. */
  lemma SignedNeedsDigit(s: string)
    ensures ParseSigned(SkipWhite(s)).Some? ==> exists i | 0 <= i < |s| :: IsDigit(s[i])
  {
    if ParseSigned(SkipWhite(s)).Some? {
      var t := SkipWhite(s);
      SkipWhiteSuffix(s);
      var u := if t != [] && (t[0] == '-' || t[0] == '+') then t[1..] else t;
      assert ParseMagnitude(u).Some?;
      assert u[0] == s[|s| - |u|];
    }
  }

  /** Digits denoting a value of 2^31 or more do not parse without a minus sign. */
  lemma {:induction false} ParseOverflow(pre: string, ds: string, post: string)
    requires AllParseWhite(pre) && AllParseWhite(post)
    requires ds != [] && AllDigits(ds) && DecimalValue(ds) >= 0x8000_0000
    ensures TryParseInt32(pre + ds + post) == None
  {
    assert pre + ds + post == pre + (ds + post);
    ParseSignedOfDigits(ds, post);
    TryParseOfPadded(pre, ds + post, DecimalValue(ds) as int);
  }

  lemma FormatSmall()
    ensures Format(1) == "1" && Format(2) == "2" && Format(3) == "3"
  {
  }

  /** The strings TryParse reads as 1, 2 and 3 include the digits themselves. */
  lemma ParseSmallChoices()
    ensures TryParseInt32("1") == Some(1) && TryParseInt32("2") == Some(2) && TryParseInt32("3") == Some(3)
  {
    FormatSmall();
    ParseFormat(1, [], []);
    ParseFormat(2, [], []);
    ParseFormat(3, [], []);
    assert [] + "1" + [] == "1" && [] + "2" + [] == "2" && [] + "3" + [] == "3";
  }
}
