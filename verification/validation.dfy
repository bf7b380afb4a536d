/** `validate_host` of bench.py: Python's `re.match` of a URL against
    ^https://[\w.-]+(?:\.[\w\.-]+)+$ .

    The pattern is written out twice: as a grammar (`HostPattern`, a reference
    definition mirroring the regex group by group) and as an index
    characterisation (`IndexForm`) from which `ValidateHost` is computed.
    `PatternIffIndexForm` proves the two agree. */
module Validation {

  const Scheme: string := "https://"

  /** `\w`, taken as the ASCII class [A-Za-z0-9_]. */
  predicate IsWordChar(c: char) {
    ('a' <= c <= 'z') || ('A' <= c <= 'Z') || ('0' <= c <= '9') || c == '_'
  }

  /** The character class [\w.-]. */
  predicate IsHostChar(c: char) {
    IsWordChar(c) || c == '.' || c == '-'
  }

  predicate AllHostChars(s: string) {
    forall k :: 0 <= k < |s| ==> IsHostChar(s[k])
  }

  predicate HasScheme(url: string) {
    |Scheme| <= |url| && url[..|Scheme|] == Scheme
  }

  // The grammar.

  /** (?:\.[\w.-]+)+ : one or more groups, each a '.' followed by a non-empty
      run of host characters. */
  ghost predicate DotGroups(s: string)
    decreases |s|
  {
    && |s| >= 2
    && s[0] == '.'
    && exists j :: 2 <= j <= |s| && AllHostChars(s[1..j]) && (j == |s| || DotGroups(s[j..]))
  }

  /** [\w.-]+(?:\.[\w.-]+)+ : a non-empty run of host characters followed by dot groups. */
  ghost predicate HostPattern(r: string) {
    exists i :: 1 <= i < |r| && AllHostChars(r[..i]) && DotGroups(r[i..])
  }

  /** The whole of `url` is the scheme followed by the host pattern. */
  ghost predicate FullMatch(url: string) {
    HasScheme(url) && HostPattern(url[|Scheme|..])
  }

  /** What `re.match` with the anchors ^ and $ accepts: without the MULTILINE flag,
      Python's `$` matches at the end of the string and also just before a final "\n". */
  ghost predicate RegexMatch(url: string) {
    || FullMatch(url)
    || (|url| > 0 && url[|url| - 1] == '\n' && FullMatch(url[..|url| - 1]))
  }

  // The index characterisation.

  /** A '.' somewhere other than the first or the last position. */
  predicate HasInteriorDot(r: string) {
    exists i :: 1 <= i <= |r| - 2 && r[i] == '.'
  }

  predicate IndexForm(r: string) {
    |r| > 0 && AllHostChars(r) && HasInteriorDot(r)
  }

  predicate IndexFormUrl(url: string) {
    HasScheme(url) && IndexForm(url[|Scheme|..])
  }

  /** A run of dot groups is exactly a '.' followed by at least one more host
      character, everything drawn from [\w.-]: since '.' is itself a host
      character, the group boundaries impose nothing further. */
  lemma {:induction false} DotGroupsChars(s: string)
    ensures DotGroups(s) <==> (|s| >= 2 && s[0] == '.' && AllHostChars(s))
    decreases |s|
  {
    if DotGroups(s) {
      var j :| 2 <= j <= |s| && AllHostChars(s[1..j]) && (j == |s| || DotGroups(s[j..]));
      if j < |s| {
        DotGroupsChars(s[j..]);
      }
      forall k | 0 <= k < |s|
        ensures IsHostChar(s[k])
      {
        if k == 0 {
        } else if k < j {
          assert s[k] == s[1..j][k - 1];
        } else {
          assert s[k] == s[j..][k - j];
        }
      }
    }
    if |s| >= 2 && s[0] == '.' && AllHostChars(s) {
      assert forall k :: 0 <= k < |s| - 1 ==> s[1..|s|][k] == s[k + 1];
      assert AllHostChars(s[1..|s|]);
    }
  }

  /** The grammar of the host part and the index characterisation coincide. */
  lemma PatternIffIndexForm(r: string)
    ensures HostPattern(r) <==> IndexForm(r)
  {
    if HostPattern(r) {
      var i :| 1 <= i < |r| && AllHostChars(r[..i]) && DotGroups(r[i..]);
      DotGroupsChars(r[i..]);
      assert r[i] == r[i..][0];
      forall k | 0 <= k < |r|
        ensures IsHostChar(r[k])
      {
        if k < i {
          assert r[k] == r[..i][k];
        } else {
          assert r[k] == r[i..][k - i];
        }
      }
    }
    if IndexForm(r) {
      var i :| 1 <= i <= |r| - 2 && r[i] == '.';
      assert forall k :: 0 <= k < i ==> r[..i][k] == r[k];
      assert forall k :: 0 <= k < |r| - i ==> r[i..][k] == r[i + k];
      DotGroupsChars(r[i..]);
      assert AllHostChars(r[..i]) && DotGroups(r[i..]);
    }
  }

  lemma FullMatchIffIndexForm(url: string)
    ensures FullMatch(url) <==> IndexFormUrl(url)
  {
    if HasScheme(url) {
      PatternIffIndexForm(url[|Scheme|..]);
    }
  }

  /** A string ending in "\n" never matches in full: '\n' is not a host character. */
  lemma NoFullMatchWithNewline(url: string)
    requires |url| > 0 && url[|url| - 1] == '\n'
    ensures !FullMatch(url)
  {
    FullMatchIffIndexForm(url);
    if HasScheme(url) && |url| > |Scheme| {
      var r := url[|Scheme|..];
      assert r[|r| - 1] == '\n';
    }
  }

  /** `validate_host(url)` is truthy exactly when `re.match` finds a match. */
  function ValidateHost(url: string): (ok: bool)
    ensures ok <==> RegexMatch(url)
    ensures ok ==> HasScheme(url) && HasInteriorDot(url[|Scheme|..])
  {
    FullMatchIffIndexForm(url);
    if |url| > 0 && url[|url| - 1] == '\n' then
      var base := url[..|url| - 1];
      NoFullMatchWithNewline(url);
      FullMatchIffIndexForm(base);
      assert IndexFormUrl(base) ==> url[..|Scheme|] == base[..|Scheme|];
      assert IndexFormUrl(base) ==> HasInteriorDot(url[|Scheme|..]) by {
        if IndexFormUrl(base) {
          var i :| 1 <= i <= |base[|Scheme|..]| - 2 && base[|Scheme|..][i] == '.';
          assert url[|Scheme|..][i] == '.';
        }
      }
      IndexFormUrl(base)
    else
      IndexFormUrl(url)
  }

  /** The wrong scheme and a host without a dot are refused. */
  lemma RejectsExamples()
    ensures !RegexMatch("http://example.com")
    ensures !RegexMatch("https://localhost")
  {
    var u := "http://example.com";
    assert u[..|Scheme|][4] != Scheme[4];
    var v := "https://localhost";
    FullMatchIffIndexForm(v);
    assert v[|Scheme|..] == "localhost";
  }

  /** Dotted hosts are accepted. */
  lemma AcceptsExamples()
    ensures RegexMatch("https://example.com")
    ensures RegexMatch("https://a.b.c")
  {
    var u := "https://example.com";
    FullMatchIffIndexForm(u);
    assert u[..|Scheme|] == Scheme;
    assert u[|Scheme|..] == "example.com";
    assert u[|Scheme|..][7] == '.';
    var v := "https://a.b.c";
    FullMatchIffIndexForm(v);
    assert v[..|Scheme|] == Scheme;
    assert v[|Scheme|..] == "a.b.c";
    assert v[|Scheme|..][1] == '.';
  }

  /** `$` tolerates one final "\n" but not two. */
  lemma NewlineExamples()
    ensures RegexMatch("https://example.com\n")
    ensures !RegexMatch("https://example.com\n\n")
  {
    var u := "https://example.com\n";
    var base := u[..|u| - 1];
    assert base == "https://example.com";
    AcceptsExamples();
    var w := "https://example.com\n\n";
    NoFullMatchWithNewline(w);
    NoFullMatchWithNewline(w[..|w| - 1]);
  }

  /** A trailing '/' is refused, while a host made of dots alone satisfies the pattern. */
  lemma PatternQuirks()
    ensures !RegexMatch("https://example.com/")
    ensures RegexMatch("https://...")
  {
    var u := "https://example.com/";
    FullMatchIffIndexForm(u);
    assert u[|Scheme|..][11] == '/' == u[|u| - 1];
    var v := "https://...";
    FullMatchIffIndexForm(v);
    assert v[..|Scheme|] == Scheme;
    assert v[|Scheme|..] == "...";
    assert v[|Scheme|..][1] == '.';
  }
}
