/**
 * The handshake middleware reads the credential out of the raw `cookie`
 * header with the regular expression /token=([^;]+)/ and keeps capture
 * group 1. The expression is not anchored and has no flags, so it matches at
 * the leftmost position where `token=` is followed by at least one character
 * other than `;`, and the greedy group then takes every non-`;` character up
 * to the next `;` or the end of the header.
 */
module TokenCookie {
  import opened Wrappers

  const Key: string := "token="

  /** The expression matches at position i of s. */
  predicate MatchesAt(s: string, i: nat)
  {
    i + |Key| < |s| && s[i..i + |Key|] == Key && s[i + |Key|] != ';'
  }

  /** i is the leftmost position where the expression matches. */
  predicate IsFirstMatch(s: string, i: nat)
  {
    MatchesAt(s, i) && forall k :: 0 <= k < i ==> !MatchesAt(s, k)
  }

  /** No position of s is a match. */
  predicate NoMatch(s: string)
  {
    forall k :: 0 <= k < |s| ==> !MatchesAt(s, k)
  }

  /**
   * t is the text the capture group takes for a match at i: non-empty, free
   * of `;`, starting right after `token=`, and ending at a `;` or at the end.
   */
  predicate CapturedAt(s: string, i: nat, t: string)
  {
    0 < |t| && i + |Key| + |t| <= |s| &&
    s[i + |Key| .. i + |Key| + |t|] == t &&
    (forall k :: 0 <= k < |t| ==> t[k] != ';') &&
    (i + |Key| + |t| == |s| || s[i + |Key| + |t|] == ';')
  }

  /** End of the greedy run of non-`;` characters that starts at j. */
  function RunEnd(s: string, j: nat): (e: nat)
    requires j <= |s|
    ensures j <= e <= |s|
    ensures forall k :: j <= k < e ==> s[k] != ';'
    ensures e == |s| || s[e] == ';'
    decreases |s| - j
  {
    if j == |s| || s[j] == ';' then j else RunEnd(s, j + 1)
  }

  /** Leftmost match at or after position i, as the regular-expression engine scans. */
  function FirstMatchFrom(s: string, i: nat): (r: Option<nat>)
    requires i <= |s|
    ensures r.Some? ==> i <= r.value && MatchesAt(s, r.value)
    ensures r.Some? ==> forall k :: i <= k < r.value ==> !MatchesAt(s, k)
    ensures r.None? ==> forall k :: i <= k < |s| ==> !MatchesAt(s, k)
    decreases |s| - i
  {
    if i == |s| then None
    else if MatchesAt(s, i) then Some(i)
    else FirstMatchFrom(s, i + 1)
  }

  /** `cookies.match(/token=([^;]+)/)[1]`, or None when there is no match. */
  function ExtractToken(cookie: string): (r: Option<string>)
    ensures r.None? <==> NoMatch(cookie)
    ensures r.Some? ==> 0 < |r.value| && forall k :: 0 <= k < |r.value| ==> r.value[k] != ';'
  {
    match FirstMatchFrom(cookie, 0)
    case None => None
    case Some(i) => Some(cookie[i + |Key| .. RunEnd(cookie, i + |Key|)])
  }

  /** The captured run is determined by its start: it is the one RunEnd finds. */
  lemma RunEndUnique(s: string, j: nat, e: nat)
    requires j <= e <= |s|
    requires forall k :: j <= k < e ==> s[k] != ';'
    requires e == |s| || s[e] == ';'
    ensures RunEnd(s, j) == e
  {
  }

  /** Soundness: a token found is the capture of the leftmost match. */
  lemma ExtractTokenSound(s: string)
    requires ExtractToken(s).Some?
    ensures exists i: nat :: IsFirstMatch(s, i) && CapturedAt(s, i, ExtractToken(s).value)
  {
    var i :| FirstMatchFrom(s, 0) == Some(i);
    var e := RunEnd(s, i + |Key|);
    var t := s[i + |Key| .. e];
    assert t == ExtractToken(s).value;
    assert s[i + |Key|] != ';';
    assert CapturedAt(s, i, t);
  }

  /** Completeness: the capture of the leftmost match is what is found. */
  lemma ExtractTokenComplete(s: string, i: nat, t: string)
    requires IsFirstMatch(s, i) && CapturedAt(s, i, t)
    ensures ExtractToken(s) == Some(t)
  {
    var j :| FirstMatchFrom(s, 0) == Some(j);
    assert j == i;
    var e := i + |Key| + |t|;
    forall k | i + |Key| <= k < e ensures s[k] != ';' {
      assert s[k] == t[k - i - |Key|];
    }
    RunEndUnique(s, i + |Key|, e);
  }

  /**
   * The cookie the login flow sets, `token=<jwt>`, comes back as the token
   * when it opens the header, whatever cookies follow it.
   */
  lemma {:induction false} LeadingTokenCookie(t: string, rest: string)
    requires 0 < |t| && forall k :: 0 <= k < |t| ==> t[k] != ';'
    requires rest == [] || rest[0] == ';'
    ensures ExtractToken(Key + t + rest) == Some(t)
  {
    var s := Key + t + rest;
    assert s[0..|Key|] == Key;
    assert s[|Key|] == t[0];
    assert s[|Key| .. |Key| + |t|] == t;
    assert |Key| + |t| < |s| ==> s[|Key| + |t|] == rest[0];
    assert IsFirstMatch(s, 0);
    ExtractTokenComplete(s, 0, t);
  }

  /** A match in s is a match in p + s, shifted by |p|, and conversely. */
  lemma ShiftMatch(p: string, s: string, k: nat)
    ensures MatchesAt(p + s, |p| + k) <==> MatchesAt(s, k)
  {
    if k + |Key| < |s| {
      assert (p + s)[|p| + k .. |p| + k + |Key|] == s[k .. k + |Key|];
      assert (p + s)[|p| + k + |Key|] == s[k + |Key|];
    }
  }

  /** A capture in s is a capture in p + s, shifted by |p|. */
  lemma ShiftCapture(p: string, s: string, i: nat, t: string)
    requires CapturedAt(s, i, t)
    ensures CapturedAt(p + s, |p| + i, t)
  {
    var ps := p + s;
    var e := i + |Key| + |t|;
    assert ps[|p| + i + |Key| .. |p| + e] == s[i + |Key| .. e];
    assert |p| + e < |ps| ==> ps[|p| + e] == s[e];
  }

  /** A prefix in which no match starts keeps "no match" and the leftmost match of s. */
  lemma PrefixKeepsNoMatch(p: string, s: string)
    requires forall k :: 0 <= k < |p| ==> !MatchesAt(p + s, k)
    requires NoMatch(s)
    ensures NoMatch(p + s)
  {
    forall k | |p| <= k < |p + s| ensures !MatchesAt(p + s, k) {
      ShiftMatch(p, s, k - |p|);
    }
  }

  lemma PrefixKeepsFirstMatch(p: string, s: string, i: nat)
    requires forall k :: 0 <= k < |p| ==> !MatchesAt(p + s, k)
    requires IsFirstMatch(s, i)
    ensures IsFirstMatch(p + s, |p| + i)
  {
    forall k | |p| <= k < |p| + i ensures !MatchesAt(p + s, k) {
      ShiftMatch(p, s, k - |p|);
    }
    ShiftMatch(p, s, i);
  }

  /**
   * Cookies before the first qualifying `token=` do not change the result:
   * if no match starts inside the prefix p, the header p + s yields what s does.
   */
  lemma {:induction false} PrefixWithoutMatch(p: string, s: string)
    requires forall k :: 0 <= k < |p| ==> !MatchesAt(p + s, k)
    ensures ExtractToken(p + s) == ExtractToken(s)
  {
    if ExtractToken(s).None? {
      PrefixKeepsNoMatch(p, s);
    } else {
      var t := ExtractToken(s).value;
      ExtractTokenSound(s);
      var i: nat :| IsFirstMatch(s, i) && CapturedAt(s, i, t);
      PrefixKeepsFirstMatch(p, s, i);
      ShiftCapture(p, s, i, t);
      ExtractTokenComplete(p + s, |p| + i, t);
    }
  }

  /** No match starts at a character other than `t`. */
  lemma NotMatchAt(s: string, k: nat)
    requires k < |s| && s[k] != 't'
    ensures !MatchesAt(s, k)
  {
    if k + |Key| < |s| {
      assert s[k..k + |Key|][0] == s[k];
    }
  }

  /**
   * The match is not anchored to a cookie boundary: whatever precedes
   * `token=`, if it contains no `t`, the value after `token=` is taken. So
   * `xtoken=abc` yields `abc`, and a cookie such as `csrftoken` placed
   * before the `token` cookie shadows it.
   */
  lemma {:induction false} UnanchoredMatch(p: string, t: string, rest: string)
    requires forall k :: 0 <= k < |p| ==> p[k] != 't'
    requires 0 < |t| && forall k :: 0 <= k < |t| ==> t[k] != ';'
    requires rest == [] || rest[0] == ';'
    ensures ExtractToken(p + (Key + t + rest)) == Some(t)
  {
    var s := Key + t + rest;
    forall k | 0 <= k < |p| ensures !MatchesAt(p + s, k) {
      assert (p + s)[k] == p[k];
      NotMatchAt(p + s, k);
    }
    PrefixWithoutMatch(p, s);
    LeadingTokenCookie(t, rest);
  }

  /** `xtoken=abc` yields `abc`. */
  lemma XTokenExample()
    ensures ExtractToken("xtoken=abc") == Some("abc")
  {
    UnanchoredMatch("x", "abc", "");
    assert "x" + (Key + "abc" + "") == "xtoken=abc";
  }

  /** An empty `token=` is skipped and the rest of the header is scanned. */
  lemma {:induction false} EmptyTokenSkipped(s: string)
    ensures ExtractToken(Key + ";" + s) == ExtractToken(s)
  {
    var p := Key + ";";
    var ps := p + s;
    assert Key + ";" + s == ps;
    assert !MatchesAt(ps, 0) by { assert ps[|Key|] == ';'; }
    assert ps[1] == 'o' && ps[2] == 'k' && ps[3] == 'e' && ps[4] == 'n' && ps[5] == '=' && ps[6] == ';';
    NotMatchAt(ps, 1); NotMatchAt(ps, 2); NotMatchAt(ps, 3);
    NotMatchAt(ps, 4); NotMatchAt(ps, 5); NotMatchAt(ps, 6);
    PrefixWithoutMatch(p, s);
  }

  /** A header whose only `token=` has nothing after it carries no token. */
  lemma EmptyTokenOnly()
    ensures ExtractToken("token=") == None
  {
  }
}
