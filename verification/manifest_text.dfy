/** `set_manifest_version` as a rewrite of the manifest's text: every occurrence of
    the pattern `(["']version["']\s*:\s*["'])([\d\.]+)(["'])` keeps its first and
    last group and gets the new version as its middle group. Occurrences are
    found left to right without overlap, as Python's `re.sub` finds them. */
module ManifestText {
  import opened Wrappers
  import opened Text
  import Version

  predicate IsQuote(c: char) {
    c == '"' || c == '\''
  }

  /** The characters Python's `\s` matches in a text pattern. */
  predicate IsSpace(c: char) {
    ('\t' <= c <= '\r') || ('\U{1C}' <= c <= ' ') || c == '\U{85}' || c == '\U{A0}' ||
    c == '\U{1680}' || ('\U{2000}' <= c <= '\U{200A}') || c == '\U{2028}' || c == '\U{2029}' ||
    c == '\U{202F}' || c == '\U{205F}' || c == '\U{3000}'
  }

  /** `[\d\.]` */
  predicate IsVersionChar(c: char) {
    IsDigit(c) || c == '.'
  }

  /** What `[\d\.]+` matches. */
  predicate IsVersionText(v: string) {
    |v| > 0 && forall i :: 0 <= i < |v| ==> IsVersionChar(v[i])
  }

  /** The first position at or after `i` whose character does not satisfy `P`
      (or the end of the text): how a greedy `P*` advances. */
  function SkipWhile(t: string, i: nat, P: char -> bool): (j: nat)
    requires i <= |t|
    ensures i <= j <= |t|
    ensures forall k :: i <= k < j ==> P(t[k])
    ensures j < |t| ==> !P(t[j])
    decreases |t| - i
  {
    if i < |t| && P(t[i]) then SkipWhile(t, i + 1, P) else i
  }

  /** Where a match starting at the beginning of `t` puts its version group:
      the version text is `t[versionStart..end - 1]`, the closing quote `t[end - 1]`. */
  datatype Span = Span(versionStart: nat, end: nat)

  /** The end of the first group when it matches at the start of `t`. */
  function PreEnd(t: string): (r: Option<nat>)
    ensures r.Some? ==> 11 <= r.value <= |t|
  {
    if 9 <= |t| && IsQuote(t[0]) && t[1..8] == "version" && IsQuote(t[8]) then
      var j := SkipWhile(t, 9, IsSpace);
      if j < |t| && t[j] == ':' then
        var k := SkipWhile(t, j + 1, IsSpace);
        if k < |t| && IsQuote(t[k]) then Some(k + 1) else None
      else None
    else None
  }

  /** The match of the whole pattern at the start of `t`, if any. A group
      `[\d\.]+` followed by a quote is matched greedily without backtracking,
      since a quote is not in `[\d\.]`. */
  function MatchAt(t: string): (r: Option<Span>)
    ensures r.Some? ==> 11 <= r.value.versionStart < r.value.end - 1 && r.value.end <= |t|
  {
    match PreEnd(t)
    case None => None
    case Some(p) =>
      var e := SkipWhile(t, p, IsVersionChar);
      if p < e < |t| && IsQuote(t[e]) then Some(Span(p, e + 1)) else None
  }

  /** `MANIFEST_VERSION_RE.sub(r"\g<pre>" + version + r"\g<post>", manifest)`. */
  function SetManifestVersion(manifest: string, version: string): string
    decreases |manifest|
  {
    if |manifest| == 0 then ""
    else
      match MatchAt(manifest)
      case Some(m) =>
        manifest[..m.versionStart] + version + [manifest[m.end - 1]] +
        SetManifestVersion(manifest[m.end..], version)
      case None => [manifest[0]] + SetManifestVersion(manifest[1..], version)
  }

  /** The version groups the same pattern finds in a text, left to right. */
  function VersionFields(manifest: string): seq<string>
    decreases |manifest|
  {
    if |manifest| == 0 then []
    else
      match MatchAt(manifest)
      case Some(m) => [manifest[m.versionStart..m.end - 1]] + VersionFields(manifest[m.end..])
      case None => VersionFields(manifest[1..])
  }

  // ---------------------------------------------------------------------------
  // A match only looks at the text it spans
  // ---------------------------------------------------------------------------

  lemma SkipWhileExact(t: string, i: nat, q: nat, P: char -> bool)
    requires i <= q <= |t|
    requires forall k :: i <= k < q ==> P(t[k])
    requires q == |t| || !P(t[q])
    ensures SkipWhile(t, i, P) == q
    decreases q - i
  {
    if i < q {
      SkipWhileExact(t, i + 1, q, P);
    }
  }

  lemma PreEndLocal(x: string, y: string, p: nat)
    requires PreEnd(x) == Some(p)
    requires p <= |y| && y[..p] == x[..p]
    ensures PreEnd(y) == Some(p)
  {
    assert forall k :: 0 <= k < p ==> y[k] == x[k] by {
      forall k | 0 <= k < p ensures y[k] == x[k] {
        assert y[k] == y[..p][k];
      }
    }
    assert y[1..8] == x[1..8];
    var j := SkipWhile(x, 9, IsSpace);
    SkipWhileExact(y, 9, j, IsSpace);
    var k := SkipWhile(x, j + 1, IsSpace);
    SkipWhileExact(y, j + 1, k, IsSpace);
  }

  lemma MatchAtLocal(x: string, y: string, m: Span)
    requires MatchAt(x) == Some(m)
    requires m.end <= |y| && y[..m.end] == x[..m.end]
    ensures MatchAt(y) == Some(m)
  {
    assert forall k :: 0 <= k < m.end ==> y[k] == x[k] by {
      forall k | 0 <= k < m.end ensures y[k] == x[k] {
        assert y[k] == y[..m.end][k];
      }
    }
    var p := m.versionStart;
    assert y[..p] == x[..p];
    PreEndLocal(x, y, p);
    SkipWhileExact(y, p, m.end - 1, IsVersionChar);
  }

  /** Inside a match, the only quote followed by the letter `v` is the first one. */
  lemma MatchAtShape(t: string, m: Span)
    requires MatchAt(t) == Some(m)
    ensures IsQuote(t[0]) && t[1] == 'v'
    ensures forall i :: 0 < i < m.end - 1 && IsQuote(t[i]) ==> t[i + 1] != 'v'
  {
    assert t[1] == t[1..8][0];
    var j := SkipWhile(t, 9, IsSpace);
    var k := SkipWhile(t, j + 1, IsSpace);
    assert k + 1 == m.versionStart;
    forall i | 0 < i < m.end - 1 ensures IsQuote(t[i]) ==> t[i + 1] != 'v' {
      if i < 8 {
        assert t[i] == t[1..8][i - 1];
      } else if i == 8 {
      } else if i < j {
      } else if i == j {
      } else if i < k {
      } else if i == k {
      } else {
        assert IsVersionChar(t[i]);
      }
    }
  }

  // ---------------------------------------------------------------------------
  // What the rewrite leaves alone, and where the first rewrite happens
  // ---------------------------------------------------------------------------

  /** The position of the first match the left-to-right scan finds (or the end). */
  function FirstMatch(t: string): (j: nat)
    ensures j <= |t|
    decreases |t|
  {
    if |t| == 0 || MatchAt(t).Some? then 0 else 1 + FirstMatch(t[1..])
  }

  /** One step of the scan where no match starts. */
  lemma RewriteSkips(t: string, v: string)
    requires |t| > 0 && MatchAt(t).None?
    ensures SetManifestVersion(t, v) == [t[0]] + SetManifestVersion(t[1..], v)
    ensures FirstMatch(t) == 1 + FirstMatch(t[1..])
  {
  }

  /** A text in which the scan finds no match is left as it is. */
  lemma {:induction false} NoMatchNoChange(t: string, v: string)
    requires FirstMatch(t) == |t|
    ensures SetManifestVersion(t, v) == t
    decreases |t|
  {
    if |t| > 0 {
      RewriteSkips(t, v);
      NoMatchNoChange(t[1..], v);
      assert [t[0]] + t[1..] == t;
    }
  }

  /** The scan stops at a match. */
  lemma {:induction false} FirstMatchMatches(t: string)
    requires FirstMatch(t) < |t|
    ensures MatchAt(t[FirstMatch(t)..]).Some?
    decreases |t|
  {
    if MatchAt(t).Some? {
      assert t[0..] == t;
    } else {
      FirstMatchMatches(t[1..]);
      assert t[1..][FirstMatch(t[1..])..] == t[FirstMatch(t)..];
    }
  }

  lemma ConsStep(t: string, j: nat, a: string, b: string, c: string)
    requires 1 + j <= |t|
    requires a == [t[0]] + b && b == t[1..][..j] + c
    ensures t[1..][j..] == t[1 + j..]
    ensures a == t[..1 + j] + c
  {
    assert [t[0]] + t[1..][..j] == t[..1 + j];
  }

  /** The text before the first match is copied as it is. */
  lemma {:induction false} RewriteBeforeFirstMatch(t: string, v: string)
    requires FirstMatch(t) < |t|
    ensures SetManifestVersion(t, v) == t[..FirstMatch(t)] + SetManifestVersion(t[FirstMatch(t)..], v)
    decreases |t|
  {
    if MatchAt(t).Some? {
      assert FirstMatch(t) == 0;
      assert t[0..] == t;
      assert t[..0] == "";
    } else {
      var s := t[1..];
      RewriteSkips(t, v);
      var j := FirstMatch(s);
      RewriteBeforeFirstMatch(s, v);
      ConsStep(t, j, SetManifestVersion(t, v), SetManifestVersion(s, v), SetManifestVersion(s[j..], v));
    }
  }

  lemma KeepsPrefixAlgebra(s: string, j: nat, p: nat, tail: string, v: string, c: char, rest: string)
    requires j + p <= |s|
    requires tail == s[j..][..p] + v + [c] + rest
    ensures j + p <= |s[..j] + tail| && (s[..j] + tail)[..j + p] == s[..j + p]
  {
    assert (s[..j] + tail)[..j + p] == s[..j] + s[j..][..p];
  }

  /** Where a rewrite first changes a text: the scan finds a match at `j`, which
      starts with a quote followed by `v`, and the rewrite leaves the text before
      its version group, at `j + p`, as it is. */
  lemma RewriteKeepsPrefix(s: string, v: string) returns (j: nat, p: nat)
    requires FirstMatch(s) < |s|
    ensures j == FirstMatch(s) && MatchAt(s[j..]).Some? && p == MatchAt(s[j..]).value.versionStart
    ensures 11 <= p && j + p <= |s| && IsQuote(s[j]) && s[j + 1] == 'v'
    ensures j + p <= |SetManifestVersion(s, v)| && SetManifestVersion(s, v)[..j + p] == s[..j + p]
  {
    FirstMatchMatches(s);
    RewriteBeforeFirstMatch(s, v);
    j := FirstMatch(s);
    var sj := s[j..];
    var mj := MatchAt(sj).value;
    p := mj.versionStart;
    MatchAtShape(sj, mj);
    assert s[j] == sj[0] && s[j + 1] == sj[1];
    KeepsPrefixAlgebra(s, j, p, SetManifestVersion(sj, v), v, sj[mj.end - 1],
      SetManifestVersion(sj[mj.end..], v));
  }

  /** A text that agrees with a non-matching text up to a quote followed by `v`,
      and a little beyond, does not match either: no match can run across such a quote. */
  lemma AgreeingPrefixNoMatch(t: string, w: string, n: nat, q: nat)
    requires MatchAt(t).None?
    requires n <= |t| && n <= |w| && w[..n] == t[..n]
    requires 0 < q && q + 11 <= n && IsQuote(t[q]) && t[q + 1] == 'v'
    ensures MatchAt(w).None?
  {
    if MatchAt(w).Some? {
      var m := MatchAt(w).value;
      if m.end <= n {
        assert w[..m.end] == t[..m.end];
        MatchAtLocal(w, t, m);
        assert false;
      } else {
        assert w[q] == w[..n][q] && w[q + 1] == w[..n][q + 1];
        MatchAtShape(w, m);
        assert false;
      }
    }
  }

  lemma ConsPrefix(c: char, u: string, s: string, k: nat)
    requires k <= |u| && k <= |s| && u[..k] == s[..k]
    ensures ([c] + u)[..k + 1] == ([c] + s)[..k + 1]
  {
    assert ([c] + u)[..k + 1] == [c] + u[..k];
    assert ([c] + s)[..k + 1] == [c] + s[..k];
  }

  lemma NoMatchStep(c: char, s: string, u: string, j: nat, k: nat)
    requires MatchAt([c] + s).None?
    requires k <= |u| && k <= |s| && u[..k] == s[..k]
    requires j + 11 <= k && IsQuote(s[j]) && s[j + 1] == 'v'
    ensures MatchAt([c] + u).None?
  {
    var t := [c] + s;
    ConsPrefix(c, u, s, k);
    assert t[1 + j] == s[j] && t[2 + j] == s[j + 1];
    AgreeingPrefixNoMatch(t, [c] + u, k + 1, 1 + j);
  }

  /** Where the scan does not match, it still does not match after the rest of
      the text has been rewritten: a rewrite changes only text behind a quote
      followed by `version`, and no match can run across such a quote. */
  lemma NoMatchStaysNoMatch(t: string, v: string)
    requires |t| > 0 && MatchAt(t).None?
    ensures MatchAt([t[0]] + SetManifestVersion(t[1..], v)).None?
  {
    var s := t[1..];
    assert [t[0]] + s == t;
    if FirstMatch(s) == |s| {
      NoMatchNoChange(s, v);
    } else {
      var j, p := RewriteKeepsPrefix(s, v);
      var u := SetManifestVersion(s, v);
      assert MatchAt([t[0]] + s).None?;
      assert j + p <= |u| && j + p <= |s|;
      assert u[..j + p] == s[..j + p];
      assert j + 11 <= j + p && IsQuote(s[j]) && s[j + 1] == 'v';
      NoMatchStep(t[0], s, u, j, j + p);
    }
  }

  /** A rewritten occurrence is matched again, with the new version as its group. */
  lemma RewrittenOccurrenceMatches(t: string, v: string, rest: string)
    requires MatchAt(t).Some? && IsVersionText(v)
    ensures var m := MatchAt(t).value;
      MatchAt(t[..m.versionStart] + v + [t[m.end - 1]] + rest) == Some(Span(m.versionStart, m.versionStart + |v| + 1))
  {
    var m := MatchAt(t).value;
    var p := m.versionStart;
    var y := t[..p] + v + [t[m.end - 1]] + rest;
    assert y[..p] == t[..p];
    PreEndLocal(t, y, p);
    assert forall k :: p <= k < p + |v| ==> y[k] == v[k - p];
    SkipWhileExact(y, p, p + |v|, IsVersionChar);
  }

  // ---------------------------------------------------------------------------
  // The properties of the rewrite
  // ---------------------------------------------------------------------------

  /** After the rewrite the pattern finds as many version fields as before, and
      every one of them holds the new version. */
  lemma {:induction false} RewrittenFieldsHoldNewVersion(t: string, v: string)
    requires IsVersionText(v)
    ensures |VersionFields(SetManifestVersion(t, v))| == |VersionFields(t)|
    ensures forall i :: 0 <= i < |VersionFields(SetManifestVersion(t, v))| ==>
      VersionFields(SetManifestVersion(t, v))[i] == v
    decreases |t|
  {
    if |t| > 0 {
      match MatchAt(t)
      case Some(m) =>
        var rest := SetManifestVersion(t[m.end..], v);
        var y := t[..m.versionStart] + v + [t[m.end - 1]] + rest;
        assert SetManifestVersion(t, v) == y;
        RewrittenOccurrenceMatches(t, v, rest);
        var e := m.versionStart + |v| + 1;
        assert y[m.versionStart..e - 1] == v;
        assert y[e..] == rest;
        RewrittenFieldsHoldNewVersion(t[m.end..], v);
      case None =>
        NoMatchStaysNoMatch(t, v);
        var w := [t[0]] + SetManifestVersion(t[1..], v);
        assert w[1..] == SetManifestVersion(t[1..], v);
        RewrittenFieldsHoldNewVersion(t[1..], v);
    }
  }

  /** A text without a version field is left as it is. */
  lemma {:induction false} NoFieldNoChange(t: string, v: string)
    requires VersionFields(t) == []
    ensures SetManifestVersion(t, v) == t
    decreases |t|
  {
    if |t| > 0 {
      NoFieldNoChange(t[1..], v);
      assert [t[0]] + t[1..] == t;
    }
  }

  lemma Reassemble(t: string, i: nat, j: nat)
    requires i <= j < |t|
    ensures t[..i] + t[i..j] + [t[j]] + t[j + 1..] == t
  {
  }

  /** Writing the version a text already holds in every field leaves it as it is. */
  lemma {:induction false} SameVersionNoChange(t: string, v: string)
    requires forall i :: 0 <= i < |VersionFields(t)| ==> VersionFields(t)[i] == v
    ensures SetManifestVersion(t, v) == t
    decreases |t|
  {
    if |t| > 0 {
      match MatchAt(t)
      case Some(m) =>
        assert VersionFields(t)[0] == t[m.versionStart..m.end - 1];
        assert forall i :: 0 <= i < |VersionFields(t[m.end..])| ==>
          VersionFields(t[m.end..])[i] == VersionFields(t)[i + 1];
        SameVersionNoChange(t[m.end..], v);
        Reassemble(t, m.versionStart, m.end - 1);
      case None =>
        assert VersionFields(t) == VersionFields(t[1..]);
        SameVersionNoChange(t[1..], v);
        assert [t[0]] + t[1..] == t;
    }
  }

  /** A second rewrite overwrites the first one completely: the first rewrite
      changes nothing but the version groups, which the second one replaces. */
  lemma {:induction false} RewriteTwice(t: string, v: string, w: string)
    requires IsVersionText(v)
    ensures SetManifestVersion(SetManifestVersion(t, v), w) == SetManifestVersion(t, w)
    decreases |t|
  {
    if |t| > 0 {
      match MatchAt(t)
      case Some(m) =>
        var rest := SetManifestVersion(t[m.end..], v);
        var y := t[..m.versionStart] + v + [t[m.end - 1]] + rest;
        assert SetManifestVersion(t, v) == y;
        RewrittenOccurrenceMatches(t, v, rest);
        var e := m.versionStart + |v| + 1;
        assert y[..m.versionStart] == t[..m.versionStart];
        assert y[e - 1] == t[m.end - 1];
        assert y[e..] == rest;
        RewriteTwice(t[m.end..], v, w);
      case None =>
        NoMatchStaysNoMatch(t, v);
        var u := [t[0]] + SetManifestVersion(t[1..], v);
        assert u[1..] == SetManifestVersion(t[1..], v);
        RewriteTwice(t[1..], v, w);
    }
  }

  /** Writing a version and then the one every field held before gives back the
      original manifest: nothing outside the version groups is changed. */
  lemma WriteBackRestores(t: string, v: string, w: string)
    requires IsVersionText(v)
    requires forall i :: 0 <= i < |VersionFields(t)| ==> VersionFields(t)[i] == w
    ensures SetManifestVersion(SetManifestVersion(t, v), w) == t
  {
    RewriteTwice(t, v, w);
    SameVersionNoChange(t, w);
  }

  /** A bumped version is a valid replacement text, so bumping and then writing
      the manifest leaves every version field holding the bumped version. */
  lemma {:induction false} BumpThenWrite(manifest: string, version: string, mode: string)
    requires Version.BumpVersion(version, mode).Success?
    ensures var bumped := Version.BumpVersion(version, mode).value;
      && |VersionFields(SetManifestVersion(manifest, bumped))| == |VersionFields(manifest)|
      && forall i :: 0 <= i < |VersionFields(SetManifestVersion(manifest, bumped))| ==>
        VersionFields(SetManifestVersion(manifest, bumped))[i] == bumped
  {
    var bumped := Version.BumpVersion(version, mode).value;
    BumpedIsVersionText(version, mode);
    RewrittenFieldsHoldNewVersion(manifest, bumped);
  }

  lemma BumpedIsVersionText(version: string, mode: string)
    requires Version.BumpVersion(version, mode).Success?
    ensures IsVersionText(Version.BumpVersion(version, mode).value)
  {
    var p := Version.MatchVersion(version).value;
    var bumped := Version.BumpVersion(version, mode).value;
    if mode == "major" {
      var q := p.(major := NatToDigits(DigitsValue(p.major) + 1), minor := "0", patch := "0");
      assert q.Wellformed() && bumped == Version.Format(q);
      FormatIsVersionText(q);
    } else if mode == "minor" {
      var q := p.(minor := NatToDigits(DigitsValue(p.minor) + 1), patch := "0");
      assert q.Wellformed() && bumped == Version.Format(q);
      FormatIsVersionText(q);
    } else {
      var q := p.(patch := NatToDigits(DigitsValue(p.patch) + 1));
      assert q.Wellformed() && bumped == Version.Format(q);
      FormatIsVersionText(q);
    }
  }

  lemma FormatIsVersionText(q: Version.VersionParts)
    requires q.Wellformed()
    ensures IsVersionText(Version.Format(q))
  {
    var s := Version.Format(q);
    forall i | 0 <= i < |s| ensures IsVersionChar(s[i]) {
      var a := q.seriesMajor + ".";
      var b := a + q.seriesMinor + ".";
      var c := b + q.major + ".";
      var d := c + q.minor + ".";
      assert s == d + q.patch;
      if i < |q.seriesMajor| {
        assert s[i] == q.seriesMajor[i];
      } else if i < |a| {
      } else if i < |a| + |q.seriesMinor| {
        assert s[i] == q.seriesMinor[i - |a|];
      } else if i < |b| {
      } else if i < |b| + |q.major| {
        assert s[i] == q.major[i - |b|];
      } else if i < |c| {
      } else if i < |c| + |q.minor| {
        assert s[i] == q.minor[i - |c|];
      } else if i < |d| {
      } else {
        assert s[i] == q.patch[i - |d|];
      }
    }
  }
}
