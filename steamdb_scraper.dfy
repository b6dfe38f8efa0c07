/** steamdb-scraper.js: the game record built from an app's steamdb info
    page. The first match of `/store_tags<\/td>\n(.*)\n/` is searched for
    the two tag ids; the page download is a parameter (`html`). */
module SteamdbScraper {
  import opened Wrappers
  import opened GameRecord

  /** steamdb-scraper.js:2-3. */
  const CoopTag: nat := 1685
  const MultiplayerTag: nat := 3859

  predicate OccursAt(text: string, pat: string, i: nat) {
    i + |pat| <= |text| && text[i..i + |pat|] == pat
  }

  /** `String.prototype.indexOf` from position `from`: the first position
      at or after `from` where `pat` occurs, or -1. */
  function IndexOfFrom(text: string, pat: string, from: nat): (r: int)
    requires from <= |text|
    ensures r == -1 <==> forall i :: from <= i <= |text| ==> !OccursAt(text, pat, i)
    ensures r != -1 ==> from <= r <= |text| && OccursAt(text, pat, r)
    ensures r != -1 ==> forall i :: from <= i < r ==> !OccursAt(text, pat, i)
    decreases |text| - from
  {
    if OccursAt(text, pat, from) then from
    else if from == |text| then -1
    else IndexOfFrom(text, pat, from + 1)
  }

  function IndexOf(text: string, pat: string): int {
    IndexOfFrom(text, pat, 0)
  }

  function DigitChar(d: nat): (c: char)
    requires d < 10
    ensures '0' <= c <= '9'
  {
    ('0' as int + d) as char
  }

  predicate IsDecimal(s: string) {
    forall i :: 0 <= i < |s| ==> '0' <= s[i] <= '9'
  }

  /** JavaScript's conversion of a non-negative integer to a string in
      `'tagid=' + tagId`: its decimal digits, without leading zeros. */
  function NatToString(n: nat): (s: string)
    ensures |s| >= 1 && IsDecimal(s)
    ensures |s| > 1 ==> s[0] != '0'
    decreases n
  {
    if n < 10 then [DigitChar(n)] else NatToString(n / 10) + [DigitChar(n % 10)]
  }

  /** The number a string of decimal digits denotes. */
  function DecimalValue(s: string): nat
    requires IsDecimal(s)
  {
    if s == [] then 0
    else DecimalValue(s[..|s| - 1]) * 10 + (s[|s| - 1] as int - '0' as int)
  }

  /** The digits written for a tag id denote that id, so distinct ids are
      searched with distinct strings. */
  lemma {:induction false} NatToStringRoundTrip(n: nat)
    ensures DecimalValue(NatToString(n)) == n
    decreases n
  {
    if n >= 10 {
      NatToStringRoundTrip(n / 10);
      var s := NatToString(n);
      assert s[..|s| - 1] == NatToString(n / 10);
    }
  }

  /** The string `hasTag` searches for: `'tagid=' + tagId + '"'`. */
  function TagNeedle(tagId: nat): string {
    "tagid=" + NatToString(tagId) + "\""
  }

  /** The needles for the two tags the scraper reads. */
  lemma TagNeedles()
    ensures TagNeedle(CoopTag) == "tagid=1685\""
    ensures TagNeedle(MultiplayerTag) == "tagid=3859\""
  {
    assert NatToString(16) == "16" by { assert NatToString(1) == "1"; }
    assert NatToString(168) == "168";
    assert NatToString(1685) == "1685";
    assert NatToString(38) == "38" by { assert NatToString(3) == "3"; }
    assert NatToString(385) == "385";
    assert NatToString(3859) == "3859";
  }

  /** `hasTag(text, tagId)` (steamdb-scraper.js:15-17): true exactly when
      `tagid=<tagId>"` occurs somewhere in the text. */
  function HasTag(text: string, tagId: nat): (b: bool)
    ensures b <==> exists i :: 0 <= i <= |text| && OccursAt(text, TagNeedle(tagId), i)
  {
    IndexOf(text, TagNeedle(tagId)) > -1
  }

  // ---------------------------------------------------------------------
  // The regular expression /store_tags<\/td>\n(.*)\n/g and `html.match`.

  /** The literal part of the pattern before the capture group. */
  const StoreTagsHeader: string := "store_tags</td>\n"

  /** The characters `.` does not match: the line terminators of
      ECMAScript (LF, CR, LINE SEPARATOR, PARAGRAPH SEPARATOR). */
  predicate IsLineTerminator(c: char) {
    c == '\n' || c == '\r' || c == '\U{2028}' || c == '\U{2029}'
  }

  /** Where the greedy `.*` started at `i` stops: the first line terminator
      at or after `i`, or the end of the text. */
  function RunEnd(s: string, i: nat): (j: nat)
    requires i <= |s|
    ensures i <= j <= |s|
    ensures forall k :: i <= k < j ==> !IsLineTerminator(s[k])
    ensures j < |s| ==> IsLineTerminator(s[j])
    decreases |s| - i
  {
    if i == |s| || IsLineTerminator(s[i]) then i else RunEnd(s, i + 1)
  }

  /** One attempt of the pattern at position `p`. Backtracking `.*` to a
      shorter run cannot help, since the character after a shorter run is
      not a line terminator and so not `\n`; the pattern matches exactly
      when the run is followed by `\n`. */
  function MatchAt(s: string, p: nat): Option<string>
    requires p <= |s|
  {
    var h := p + |StoreTagsHeader|;
    if h <= |s| && s[p..h] == StoreTagsHeader then
      var j := RunEnd(s, h);
      if j < |s| && s[j] == '\n' then Some(s[p..j + 1]) else None
    else None
  }

  /** The leftmost match at or after `from`. */
  function FirstMatchFrom(s: string, from: nat): (r: Option<string>)
    requires from <= |s|
    ensures r.None? <==> forall q :: from <= q <= |s| ==> MatchAt(s, q).None?
    ensures r.Some? ==> exists p :: from <= p <= |s| && MatchAt(s, p) == r &&
                                    forall q :: from <= q < p ==> MatchAt(s, q).None?
    decreases |s| - from
  {
    if MatchAt(s, from).Some? then MatchAt(s, from)
    else if from == |s| then None
    else
      var r := FirstMatchFrom(s, from + 1);
      assert r.Some? ==> exists p :: from <= p <= |s| && MatchAt(s, p) == r &&
                                    forall q :: from <= q < p ==> MatchAt(s, q).None? by {
        if r.Some? {
          var p :| from + 1 <= p <= |s| && MatchAt(s, p) == r &&
                                    forall q :: from + 1 <= q < p ==> MatchAt(s, q).None?;
          assert forall q :: from <= q < p ==> MatchAt(s, q).None?;
        }
      }
      r
  }

  /** `html.match(regex)[0]`, or `None` when `match` returns null. */
  function FirstMatch(html: string): Option<string> {
    FirstMatchFrom(html, 0)
  }

  /** A whole match of the pattern: the header, a run of characters other
      than line terminators, and a final `\n`. */
  predicate IsTagLine(m: string) {
    && |m| > |StoreTagsHeader|
    && m[..|StoreTagsHeader|] == StoreTagsHeader
    && m[|m| - 1] == '\n'
    && forall k :: |StoreTagsHeader| <= k < |m| - 1 ==> !IsLineTerminator(m[k])
  }

  /** The attempt at `p` yields `m` exactly when `m` is a whole match of the
      pattern that stands in the text at `p`. */
  lemma MatchAtIff(s: string, p: nat, m: string)
    requires p <= |s|
    ensures MatchAt(s, p) == Some(m) <==> OccursAt(s, m, p) && IsTagLine(m)
  {
    var n := |StoreTagsHeader|;
    if OccursAt(s, m, p) && IsTagLine(m) {
      assert s[p..p + n] == m[..n];
      var j := RunEnd(s, p + n);
      var e := p + |m| - 1;
      forall k | p + n <= k < e ensures !IsLineTerminator(s[k]) {
        assert s[k] == m[k - p];
      }
      assert s[e] == m[|m| - 1];
      assert j == e;
    }
    if MatchAt(s, p) == Some(m) {
      var j := RunEnd(s, p + n);
      assert m == s[p..j + 1];
      forall k | n <= k < |m| - 1 ensures !IsLineTerminator(m[k]) {
        assert m[k] == s[p + k];
      }
    }
  }

  /** A line that ends in `\r\n` is not matched where it starts. */
  lemma CrLfLineDoesNotMatch(line: string, rest: string)
    requires forall k :: 0 <= k < |line| ==> !IsLineTerminator(line[k])
    ensures MatchAt(StoreTagsHeader + line + "\r\n" + rest, 0).None?
  {
    var s := StoreTagsHeader + line + "\r\n" + rest;
    var n := |StoreTagsHeader|;
    assert s[..n] == StoreTagsHeader;
    forall k | n <= k < n + |line| ensures !IsLineTerminator(s[k]) {
      assert s[k] == line[k - n];
    }
    assert s[n + |line|] == '\r';
    assert RunEnd(s, n) == n + |line|;
  }

  /** `getAppInfo`'s promise callback (steamdb-scraper.js:22-34): a record
      with the given appid and no name or image, flagged from the tags in
      the first match; both flags are off when there is no match. */
  function GetAppInfo(appId: nat, html: string): (g: Game)
    ensures g.appId == appId && g.name == "" && g.image == ""
    ensures FirstMatch(html).None? ==> !g.multiplayer && !g.coop
    ensures g.multiplayer || g.coop ==>
      exists p :: 0 <= p <= |html| && MatchAt(html, p).Some? &&
                  (forall q :: 0 <= q < p ==> MatchAt(html, q).None?)
  {
    match FirstMatch(html)
    case Some(storeTags) =>
      Game(appId, "", "", HasTag(storeTags, MultiplayerTag), HasTag(storeTags, CoopTag))
    case None =>
      Game(appId, "", "", false, false)
  }

  /** Every needle starts with `tagid=` and has neither a line terminator
      nor a quote before its last character. */
  lemma NeedleShape(tagId: nat)
    ensures var t := TagNeedle(tagId);
      && |t| >= 8 && t[..6] == "tagid=" && t[|t| - 1] == '"'
      && (forall k :: 0 <= k < |t| ==> !IsLineTerminator(t[k]))
      && (forall k :: 0 <= k < |t| - 1 ==> t[k] != '"')
  {
    var t := TagNeedle(tagId);
    var d := NatToString(tagId);
    forall k | 0 <= k < |t| ensures !IsLineTerminator(t[k]) && (k < |t| - 1 ==> t[k] != '"') {
      if 6 <= k < 6 + |d| { assert t[k] == d[k - 6]; }
    }
  }

  /** A needle cannot start inside the header: it would put either its `i`
      on a header character (the header has none) or one of its characters
      on the header's final `\n`. */
  lemma NeedleNotInHeader(line: string, tagId: nat, i: nat)
    requires i < |StoreTagsHeader|
    ensures !OccursAt(StoreTagsHeader + line + "\n", TagNeedle(tagId), i)
  {
    var t := TagNeedle(tagId);
    var m := StoreTagsHeader + line + "\n";
    var n := |StoreTagsHeader|;
    NeedleShape(tagId);
    if i + |t| <= |m| {
      var w := m[i..i + |t|];
      if i + 3 < n {
        assert w[3] == StoreTagsHeader[i + 3];
        assert t[3] == 'i';
        assert w[3] != t[3];
      } else {
        assert w[n - 1 - i] == m[n - 1] == '\n';
        assert w[n - 1 - i] != t[n - 1 - i];
      }
    }
  }

  /** In a whole match, a needle can only stand inside the run between the
      header and the final `\n`: the header has no `i`, and a needle holds
      no `\n`. */
  lemma NeedleInTagLine(line: string, tagId: nat)
    ensures HasTag(StoreTagsHeader + line + "\n", tagId) == HasTag(line, tagId)
  {
    var t := TagNeedle(tagId);
    var m := StoreTagsHeader + line + "\n";
    var n := |StoreTagsHeader|;
    NeedleShape(tagId);
    forall i | 0 <= i <= |m| && OccursAt(m, t, i)
      ensures n <= i && i - n <= |line| && OccursAt(line, t, i - n)
    {
      if i < n {
        NeedleNotInHeader(line, tagId, i);
      }
      assert m[i..i + |t|] == t;
      assert m[|m| - 1] == '\n';
      assert m[i + |t| - 1] == t[|t| - 1];
      assert line[i - n..i - n + |t|] == m[i..i + |t|];
    }
    forall i | 0 <= i <= |line| && OccursAt(line, t, i)
      ensures OccursAt(m, t, i + n)
    {
      assert m[i + n..i + n + |t|] == line[i..i + |t|];
    }
  }

  /** When the first store-tags row of the page starts after `before`, the
      flags say whether that row's line has the multiplayer and co-op tags;
      tags before it or after it do not affect them. */
  lemma FlagsReadTheFirstTagLine(appId: nat, before: string, line: string, rest: string)
    requires forall k :: 0 <= k < |line| ==> !IsLineTerminator(line[k])
    requires forall q :: 0 <= q < |before| ==>
      MatchAt(before + StoreTagsHeader + line + "\n" + rest, q).None?
    ensures var g := GetAppInfo(appId, before + StoreTagsHeader + line + "\n" + rest);
      && g.multiplayer == HasTag(line, MultiplayerTag)
      && g.coop == HasTag(line, CoopTag)
  {
    var html := before + StoreTagsHeader + line + "\n" + rest;
    var m := StoreTagsHeader + line + "\n";
    var p := |before|;
    assert html[p..p + |m|] == m;
    assert IsTagLine(m) by {
      assert m[..|StoreTagsHeader|] == StoreTagsHeader;
      forall k | |StoreTagsHeader| <= k < |m| - 1 ensures !IsLineTerminator(m[k]) {
        assert m[k] == line[k - |StoreTagsHeader|];
      }
    }
    MatchAtIff(html, p, m);
    var r := FirstMatch(html);
    assert r.Some?;
    var p' :| 0 <= p' <= |html| && MatchAt(html, p') == r &&
              forall q :: 0 <= q < p' ==> MatchAt(html, q).None?;
    assert p' == p;
    assert r == Some(m);
    NeedleInTagLine(line, MultiplayerTag);
    NeedleInTagLine(line, CoopTag);
  }
}
