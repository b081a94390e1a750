/** The .NET string operations the program relies on, on `string` as a sequence of chars. */
module Text {
  import opened Results

  /** Char.IsWhiteSpace: the Unicode White_Space characters. */
  predicate IsWhiteSpace(c: char) {
    var n := c as int;
    (0x09 <= n <= 0x0D) || n == 0x20 || n == 0x85 || n == 0xA0 || n == 0x1680
    || (0x2000 <= n <= 0x200A) || n == 0x2028 || n == 0x2029 || n == 0x202F || n == 0x205F || n == 0x3000
  }

  predicate AllWhiteSpace(s: string) {
    forall i :: 0 <= i < |s| ==> IsWhiteSpace(s[i])
  }

  /** String.TrimStart(): drop the leading white space. */
  function TrimStart(s: string): (r: string)
    ensures |r| <= |s| && AllWhiteSpace(s[..|s| - |r|])
    ensures r != [] ==> !IsWhiteSpace(r[0])
  {
    if s != [] && IsWhiteSpace(s[0]) then TrimStart(s[1..]) else s
  }

  /** What TrimStart keeps is a suffix of its argument. */
  lemma {:induction false} TrimStartSuffix(s: string)
    ensures TrimStart(s) == s[|s| - |TrimStart(s)|..]
    decreases |s|
  {
    if s != [] && IsWhiteSpace(s[0]) {
      TrimStartSuffix(s[1..]);
    }
  }

  /** String.TrimEnd(): drop the trailing white space. */
  function TrimEnd(s: string): (r: string)
    ensures |r| <= |s| && AllWhiteSpace(s[|r|..])
    ensures r != [] ==> !IsWhiteSpace(r[|r| - 1])
  {
    if s != [] && IsWhiteSpace(s[|s| - 1]) then TrimEnd(s[..|s| - 1]) else s
  }

  /** What TrimEnd keeps is a prefix of its argument. */
  lemma {:induction false} TrimEndPrefix(s: string)
    ensures TrimEnd(s) == s[..|TrimEnd(s)|]
    decreases |s|
  {
    if s != [] && IsWhiteSpace(s[|s| - 1]) {
      TrimEndPrefix(s[..|s| - 1]);
    }
  }

  /** String.Trim(): drop white space at both ends. */
  function Trim(s: string): (r: string)
    ensures |r| <= |s|
    ensures r != [] ==> !IsWhiteSpace(r[0]) && !IsWhiteSpace(r[|r| - 1])
  {
    TrimEndPrefix(TrimStart(s));
    TrimEnd(TrimStart(s))
  }

  /** Trim keeps a contiguous middle part of the string and removes only white space around it. */
  lemma TrimSlice(s: string)
    ensures exists k :: 0 <= k <= |s| - |Trim(s)| && Trim(s) == s[k..k + |Trim(s)|]
                        && AllWhiteSpace(s[..k]) && AllWhiteSpace(s[k + |Trim(s)|..])
  {
    var t := TrimStart(s);
    var k := |s| - |t|;
    var r := TrimEnd(t);
    TrimStartSuffix(s);
    TrimEndPrefix(t);
    assert t == s[k..] && r == t[..|r|];
    assert s[k..k + |r|] == t[..|r|];
    assert s[k + |r|..] == t[|r|..];
    assert AllWhiteSpace(s[..k]) && AllWhiteSpace(s[k + |r|..]);
  }

  /** A string trims to nothing exactly when it is all white space. */
  lemma TrimEmpty(s: string)
    ensures Trim(s) == [] <==> AllWhiteSpace(s)
  {
    var t := TrimStart(s);
    TrimStartSuffix(s);
    if Trim(s) == [] {
      assert t == t[|Trim(s)|..];
      assert s == s[..|s| - |t|] + t;
    }
  }

  /** string.IsNullOrWhiteSpace: absent, or nothing left once trimmed. */
  function IsNullOrWhiteSpace(s: Option<string>): (r: bool)
    ensures r <==> s.None? || Trim(s.value) == []
  {
    if s.None? then true
    else TrimEmpty(s.value); AllWhiteSpace(s.value)
  }

  /** Trim removes exactly the white space padding around a string that starts and ends with something else. */
  lemma TrimPadded(pre: string, m: string, post: string)
    requires AllWhiteSpace(pre) && AllWhiteSpace(post)
    requires m != [] && !IsWhiteSpace(m[0]) && !IsWhiteSpace(m[|m| - 1])
    ensures Trim(pre + m + post) == m
  {
    TrimStartPadded(pre, m + post);
    assert pre + m + post == pre + (m + post);
    TrimEndPadded(m, post);
  }

  lemma {:induction false} TrimStartPadded(pre: string, rest: string)
    requires AllWhiteSpace(pre) && rest != [] && !IsWhiteSpace(rest[0])
    ensures TrimStart(pre + rest) == rest
    decreases |pre|
  {
    if pre != [] {
      var s := pre + rest;
      assert s[0] == pre[0] && IsWhiteSpace(s[0]);
      assert s[1..] == pre[1..] + rest;
      TrimStartPadded(pre[1..], rest);
    }
  }

  lemma {:induction false} TrimEndPadded(rest: string, post: string)
    requires AllWhiteSpace(post) && rest != [] && !IsWhiteSpace(rest[|rest| - 1])
    ensures TrimEnd(rest + post) == rest
    decreases |post|
  {
    if post != [] {
      var s := rest + post;
      assert s[..|s| - 1] == rest + post[..|post| - 1];
      TrimEndPadded(rest, post[..|post| - 1]);
    }
  }

  /** ToLower on the ASCII letters; every other character is kept. */
  function LowerChar(c: char): (r: char)
    ensures 'A' <= c <= 'Z' ==> r as int == c as int + 32
    ensures !('A' <= r <= 'Z')
    ensures ('a' <= r <= 'z') <==> ('a' <= c <= 'z') || ('A' <= c <= 'Z')
    ensures !('A' <= c <= 'Z') ==> r == c
  {
    if 'A' <= c <= 'Z' then (c as int + 32) as char else c
  }

  function ToLower(s: string): (r: string)
    ensures |r| == |s|
    ensures forall i :: 0 <= i < |s| && 'A' <= s[i] <= 'Z' ==> r[i] as int == s[i] as int + 32
    ensures forall i :: 0 <= i < |r| ==> !('A' <= r[i] <= 'Z')
    ensures forall i :: 0 <= i < |s| && !('A' <= s[i] <= 'Z') ==> r[i] == s[i]
  {
    seq(|s|, i requires 0 <= i < |s| => LowerChar(s[i]))
  }

  /** ToLower is LowerChar at every position. */
  lemma LowersTo(s: string, t: string)
    requires |s| == |t|
    requires forall i :: 0 <= i < |s| ==> LowerChar(s[i]) == t[i]
    ensures ToLower(s) == t
  {
  }

  /** A string lower-cases to "y" exactly when it is "y" or "Y"; nothing is trimmed. */
  lemma LowersToY(s: string)
    ensures ToLower(s) == "y" <==> s == "y" || s == "Y"
  {
    if ToLower(s) == "y" {
      assert |s| == 1 && ToLower(s)[0] == 'y';
      assert LowerChar(s[0]) == 'y';
    }
  }

  predicate EndsWith(s: string, suffix: string) {
    |suffix| <= |s| && s[|s| - |suffix|..] == suffix
  }

  /** A string ends with `suffix` exactly when it is something followed by `suffix`. */
  lemma EndsWithIff(s: string, suffix: string)
    ensures EndsWith(s, suffix) <==> exists p :: p + suffix == s
  {
    if EndsWith(s, suffix) {
      assert s[..|s| - |suffix|] + suffix == s;
    }
    if exists p :: p + suffix == s {
      var p :| p + suffix == s;
      assert s[|s| - |suffix|..] == suffix;
    }
  }

  predicate OccursAt(s: string, pat: string, i: int) {
    0 <= i <= |s| - |pat| && s[i..i + |pat|] == pat
  }

  predicate Contains(s: string, pat: string) {
    exists i | 0 <= i <= |s| - |pat| :: OccursAt(s, pat, i)
  }

  /**
   * s.Replace(pat, ""): scan from the left and delete every non-overlapping occurrence of `pat`.
   * What the deletions bring together is not scanned again.
   */
  function RemoveAll(s: string, pat: string): (r: string)
    requires pat != []
    ensures |r| <= |s|
    decreases |s|
  {
    if |s| < |pat| then s
    else if s[..|pat|] == pat then RemoveAll(s[|pat|..], pat)
    else [s[0]] + RemoveAll(s[1..], pat)
  }

  /** A string without an occurrence of `pat` has none after its first character either. */
  lemma AbsentFromTail(s: string, pat: string)
    requires s != [] && !Contains(s, pat)
    ensures !Contains(s[1..], pat)
  {
    forall i | OccursAt(s[1..], pat, i) ensures OccursAt(s, pat, i + 1) {
      assert s[1..][i..i + |pat|] == s[i + 1..i + 1 + |pat|];
    }
  }

  /** A string without an occurrence of `pat` is left as it is. */
  lemma {:induction false} RemoveAllAbsent(s: string, pat: string)
    requires pat != [] && !Contains(s, pat)
    ensures RemoveAll(s, pat) == s
    decreases |s|
  {
    if |s| >= |pat| {
      assert !OccursAt(s, pat, 0);
      AbsentFromTail(s, pat);
      RemoveAllAbsent(s[1..], pat);
    }
  }

  /**
   * When the first character of `pat` does not occur again in it, no occurrence can straddle
   * the end of `p`: after a `p` without occurrences, the scan finds `pat` where it was put and
   * then goes on with whatever follows.
   */
  lemma {:induction false} RemoveAllAfterClean(p: string, pat: string, rest: string)
    requires pat != [] && pat[0] !in pat[1..] && !Contains(p, pat)
    ensures RemoveAll(p + pat + rest, pat) == p + RemoveAll(rest, pat)
    decreases |p|
  {
    var s := p + pat + rest;
    if p == [] {
      assert s[..|pat|] == pat && s[|pat|..] == rest;
      assert RemoveAll(s, pat) == RemoveAll(rest, pat);
      assert p + RemoveAll(rest, pat) == RemoveAll(rest, pat);
    } else {
      NoOccurrenceStraddles(p, pat, rest);
      AbsentFromTail(p, pat);
      RemoveAllAfterClean(p[1..], pat, rest);
      assert s[1..] == p[1..] + pat + rest;
      assert RemoveAll(s, pat) == [p[0]] + (p[1..] + RemoveAll(rest, pat));
      assert [p[0]] + p[1..] == p;
    }
  }

  /** Under the same conditions, no occurrence of `pat` starts inside a non-empty `p`. */
  lemma NoOccurrenceStraddles(p: string, pat: string, rest: string)
    requires pat != [] && pat[0] !in pat[1..] && !Contains(p, pat) && p != []
    ensures (p + pat + rest)[..|pat|] != pat
  {
    var s := p + pat + rest;
    if |p| >= |pat| {
      assert s[..|pat|] == p[..|pat|];
      assert !OccursAt(p, pat, 0);
    } else {
      assert s[..|pat|][|p|] == s[|p|] == pat[0];
      assert pat[|p|] == pat[1..][|p| - 1];
      assert s[..|pat|][|p|] != pat[|p|];
    }
  }

  /** So appending `pat` to a `p` without occurrences and removing them all gives back `p`. */
  lemma RemoveAllAppended(p: string, pat: string)
    requires pat != [] && pat[0] !in pat[1..] && !Contains(p, pat)
    ensures RemoveAll(p + pat, pat) == p
  {
    RemoveAllAfterClean(p, pat, []);
    assert p + pat + [] == p + pat;
  }
}
