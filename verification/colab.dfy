/**
 * Colab URLs: building one from a Drive file id, and recovering the id
 * from a Colab URL or a bare id.
 */
module Colab {
  import opened Wrappers
  import opened Text

  /** The pieces of the Colab URL pattern. */
  const Http: string := "http"
  const Secure: string := "s"
  const ColabHost: string := "://colab"
  const Research: string := ".research"
  const GoogleDrive: string := ".google.com/drive/"

  const ParseErrorPrefix: string := "Cannot parse file ID from: "
  const MinBareIdLength: nat := 10

  /** `http` or `https`. */
  function Scheme(secure: bool): string {
    if secure then Http + Secure else Http
  }

  /** `://colab` or `://colab.research`. */
  function Host(research: bool): string {
    if research then ColabHost + Research else ColabHost
  }

  /** The four URL heads the Colab URL pattern accepts before the id:
      `http(s)://colab(.research).google.com/drive/`. */
  function Head(secure: bool, research: bool): string {
    Scheme(secure) + Host(research) + GoogleDrive
  }

  /** `COLAB_BASE_URL` (https://colab.research.google.com/drive) plus the
      slash `get_colab_url` appends. */
  const ColabBaseUrlSlash: string := Head(true, true)

  /** The id character class `[A-Za-z0-9_-]`. */
  predicate IsIdChar(c: char) {
    IsAsciiLetter(c) || IsDigit(c) || c == '_' || c == '-'
  }

  predicate AllIdChars(s: string) {
    forall k :: 0 <= k < |s| ==> IsIdChar(s[k])
  }

  /** `get_colab_url`: the base URL, a slash, then the id. */
  function GetColabUrl(fileId: string): (url: string)
    ensures HasPrefixAt(url, 0, Head(true, true)) && url[|Head(true, true)|..] == fileId
  {
    ColabBaseUrlSlash + fileId
  }

  /** The end of the run of id characters starting at `i`. */
  function IdRunEnd(s: string, i: nat): (e: nat)
    requires i <= |s|
    ensures i <= e <= |s|
    ensures forall k :: i <= k < e ==> IsIdChar(s[k])
    ensures e < |s| ==> !IsIdChar(s[e])
    decreases |s| - i
  {
    if i < |s| && IsIdChar(s[i]) then IdRunEnd(s, i + 1) else i
  }

  /** Whether the scanner reads `https` rather than `http` at `i`. */
  predicate ScanSecure(s: string, i: nat) {
    HasPrefixAt(s, i + |Http|, Secure)
  }

  /** Whether the scanner reads `://colab.research` rather than
      `://colab` after the scheme at `i`. */
  predicate ScanResearch(s: string, i: nat) {
    HasPrefixAt(s, i + |Scheme(ScanSecure(s, i))| + |ColabHost|, Research)
  }

  /** The scanner for `https?://colab(?:\.research)?\.google\.com/drive/`
      at offset `i`: the offset just past the head, or `i` when it does
      not match there. */
  function UrlHeadEnd(s: string, i: nat): (e: nat)
    requires i <= |s|
    ensures i <= e <= |s|
  {
    if !HasPrefixAt(s, i, Http) then i
    else
      var afterScheme := i + |Scheme(ScanSecure(s, i))|;
      if !HasPrefixAt(s, afterScheme, ColabHost) then i
      else
        var afterResearch := afterScheme + |Host(ScanResearch(s, i))|;
        if HasPrefixAt(s, afterResearch, GoogleDrive) then afterResearch + |GoogleDrive| else i
  }

  /** The scanner reads the scheme `secure` names when the host follows. */
  lemma SchemeRecognised(s: string, i: nat, secure: bool)
    requires HasPrefixAt(s, i, Scheme(secure))
    requires HasPrefixAt(s, i + |Scheme(secure)|, ColabHost)
    ensures HasPrefixAt(s, i, Http) && ScanSecure(s, i) == secure
  {
    if secure {
      PrefixSplit(s, i, Http, Secure);
    } else {
      PrefixChar(s, i + |Http|, ColabHost, 0);
      if HasPrefixAt(s, i + |Http|, Secure) {
        PrefixChar(s, i + |Http|, Secure, 0);
      }
    }
  }

  /** The scanner reads the host `research` names when the path follows. */
  lemma HostRecognised(s: string, j: nat, research: bool)
    requires HasPrefixAt(s, j, Host(research))
    requires HasPrefixAt(s, j + |Host(research)|, GoogleDrive)
    ensures HasPrefixAt(s, j, ColabHost) && HasPrefixAt(s, j + |ColabHost|, Research) == research
  {
    if research {
      PrefixSplit(s, j, ColabHost, Research);
    } else {
      PrefixChar(s, j + |ColabHost|, GoogleDrive, 1);
      if HasPrefixAt(s, j + |ColabHost|, Research) {
        PrefixChar(s, j + |ColabHost|, Research, 1);
      }
    }
  }

  /** The scanner accepts each of the four URL heads, ending right
      after it. */
  lemma UrlHeadAccepted(s: string, i: nat, secure: bool, research: bool)
    requires HasPrefixAt(s, i, Head(secure, research))
    ensures UrlHeadEnd(s, i) == i + |Head(secure, research)|
  {
    var scheme := Scheme(secure);
    var host := Host(research);
    PrefixSplit(s, i, scheme + host, GoogleDrive);
    PrefixSplit(s, i, scheme, host);
    var afterScheme := i + |scheme|;
    HostRecognised(s, afterScheme, research);
    SchemeRecognised(s, i, secure);
  }

  /** The scheme the scanner reads after `http` is really there. */
  lemma SchemeAt(s: string, i: nat)
    requires HasPrefixAt(s, i, Http)
    ensures HasPrefixAt(s, i, Scheme(HasPrefixAt(s, i + |Http|, Secure)))
  {
    if HasPrefixAt(s, i + |Http|, Secure) {
      PrefixJoin(s, i, Http, Secure);
    }
  }

  /** The host the scanner reads after `://colab` is really there. */
  lemma HostAt(s: string, j: nat)
    requires HasPrefixAt(s, j, ColabHost)
    ensures HasPrefixAt(s, j, Host(HasPrefixAt(s, j + |ColabHost|, Research)))
  {
    if HasPrefixAt(s, j + |ColabHost|, Research) {
      PrefixJoin(s, j, ColabHost, Research);
    }
  }

  lemma HeadJoin(s: string, i: nat, secure: bool, research: bool)
    requires HasPrefixAt(s, i, Scheme(secure))
    requires HasPrefixAt(s, i + |Scheme(secure)|, Host(research))
    requires HasPrefixAt(s, i + |Scheme(secure)| + |Host(research)|, GoogleDrive)
    ensures HasPrefixAt(s, i, Head(secure, research))
  {
    PrefixJoin(s, i, Scheme(secure), Host(research));
    PrefixJoin(s, i, Scheme(secure) + Host(research), GoogleDrive);
  }

  /** A successful scan read the scheme, the host and the path in turn. */
  lemma UrlHeadPieces(s: string, i: nat)
    requires i <= |s| && UrlHeadEnd(s, i) > i
    ensures var j := i + |Scheme(ScanSecure(s, i))|;
      && HasPrefixAt(s, i, Http)
      && HasPrefixAt(s, j, ColabHost)
      && HasPrefixAt(s, j + |Host(ScanResearch(s, i))|, GoogleDrive)
  {
  }

  /** Whatever the scanner accepts is one of the four URL heads. */
  lemma UrlHeadFromScan(s: string, i: nat)
    requires i <= |s| && UrlHeadEnd(s, i) > i
    ensures HasPrefixAt(s, i, Head(ScanSecure(s, i), ScanResearch(s, i)))
  {
    var secure := ScanSecure(s, i);
    var j := i + |Scheme(secure)|;
    var research := ScanResearch(s, i);
    UrlHeadPieces(s, i);
    assert HasPrefixAt(s, i, Scheme(secure)) by {
      SchemeAt(s, i);
    }
    assert HasPrefixAt(s, j, Host(research)) by {
      HostAt(s, j);
    }
    HeadJoin(s, i, secure, research);
  }

  /** The id the URL pattern captures when a match starts at `i`. */
  function UrlMatchAt(s: string, i: nat): (id: Option<string>)
    requires i <= |s|
    ensures id.Some? ==> |id.value| > 0 && AllIdChars(id.value)
  {
    var head := UrlHeadEnd(s, i);
    if head == i then None
    else
      var e := IdRunEnd(s, head);
      if e == head then None else Some(s[head..e])
  }

  /** `_COLAB_URL_RE.search`: the capture of the leftmost match at or
      after `i`. */
  function SearchUrl(s: string, i: nat): (id: Option<string>)
    requires i <= |s|
    ensures id.Some? ==> |id.value| > 0 && AllIdChars(id.value)
    decreases |s| - i
  {
    match UrlMatchAt(s, i)
    case Some(id) => Some(id)
    case None => if i == |s| then None else SearchUrl(s, i + 1)
  }

  /** `_BARE_ID_RE.match`: ten or more id characters and nothing else. */
  predicate IsBareId(s: string) {
    |s| >= MinBareIdLength && AllIdChars(s)
  }

  /** `parse_file_id`: the URL pattern is searched for first, anywhere in
      the raw input; failing that the stripped input must be a bare id. */
  function ParseFileId(source: string): (r: Result<string, string>)
    ensures r.Success? ==> |r.value| > 0 && AllIdChars(r.value)
    ensures r.Failure? ==> r.error == ParseErrorPrefix + source
    ensures SearchUrl(source, 0).Some? ==> r == Success(SearchUrl(source, 0).value)
    ensures SearchUrl(source, 0).None? ==>
      (r.Success? <==> IsBareId(Strip(source))) && (r.Success? ==> r.value == Strip(source))
  {
    match SearchUrl(source, 0)
    case Some(id) => Success(id)
    case None =>
      var trimmed := Strip(source);
      if IsBareId(trimmed) then Success(trimmed) else Failure(ParseErrorPrefix + source)
  }

  /** Any of the four URL heads, then an id, then anything that does not
      continue the id (a query, a fragment, nothing), parses to that id,
      whatever its length. */
  lemma UrlWithIdParses(secure: bool, research: bool, fileId: string, suffix: string)
    requires |fileId| > 0 && AllIdChars(fileId)
    requires |suffix| == 0 || !IsIdChar(suffix[0])
    ensures ParseFileId(Head(secure, research) + fileId + suffix) == Success(fileId)
  {
    var h := Head(secure, research);
    var s := h + fileId + suffix;
    var e := |h| + |fileId|;
    assert UrlHeadEnd(s, 0) == |h| by {
      assert s[..|h|] == h;
      UrlHeadAccepted(s, 0, secure, research);
    }
    IdAfterHead(h, fileId, suffix);
    assert UrlMatchAt(s, 0) == Some(fileId);
    assert SearchUrl(s, 0) == Some(fileId);
  }

  /** After any head, the id run covers exactly the id. */
  lemma IdAfterHead(h: string, fileId: string, suffix: string)
    requires AllIdChars(fileId)
    requires |suffix| == 0 || !IsIdChar(suffix[0])
    ensures var s := h + fileId + suffix;
      IdRunEnd(s, |h|) == |h| + |fileId| && s[|h|..|h| + |fileId|] == fileId
  {
    var s := h + fileId + suffix;
    var e := |h| + |fileId|;
    assert forall k :: |h| <= k < e ==> s[k] == fileId[k - |h|];
    IdRunStops(s, |h|, e);
  }

  /** Round trip: the URL built for an id parses back to that id, also
      with a query or fragment appended. */
  lemma UrlRoundTrip(fileId: string, suffix: string)
    requires |fileId| > 0 && AllIdChars(fileId)
    requires |suffix| == 0 || !IsIdChar(suffix[0])
    ensures ParseFileId(GetColabUrl(fileId) + suffix) == Success(fileId)
  {
    assert GetColabUrl(fileId) == Head(true, true) + fileId;
    assert GetColabUrl(fileId) + suffix == Head(true, true) + fileId + suffix;
    UrlWithIdParses(true, true, fileId, suffix);
  }

  /** The search moves past offsets where no URL head starts. */
  lemma {:induction false} SearchUrlSkips(s: string, i: nat, j: nat)
    requires i <= j <= |s|
    requires forall k :: i <= k < j ==> UrlMatchAt(s, k).None?
    ensures SearchUrl(s, i) == SearchUrl(s, j)
    decreases j - i
  {
    if i < j {
      assert SearchUrl(s, i) == SearchUrl(s, i + 1);
      SearchUrlSkips(s, i + 1, j);
    }
  }

  /** No URL head starts where the text has no `h`. */
  lemma NoHeadWithoutH(s: string, k: nat)
    requires k < |s| && s[k] != 'h'
    ensures UrlHeadEnd(s, k) == k
  {
    if HasPrefixAt(s, k, Http) {
      PrefixChar(s, k, Http, 0);
    }
  }

  /** A URL found at `i`, with no head starting before it, is what the
      parser returns. */
  lemma FirstUrlWins(s: string, i: nat)
    requires i <= |s| && UrlMatchAt(s, i).Some?
    requires forall k :: 0 <= k < i ==> UrlHeadEnd(s, k) == k
    ensures ParseFileId(s) == Success(UrlMatchAt(s, i).value)
  {
    forall k | 0 <= k < i
      ensures UrlMatchAt(s, k).None?
    {
    }
    SearchUrlSkips(s, 0, i);
  }

  /** The long head at the end of `p`, then an id, matches right after `p`. */
  lemma UrlMatchAfter(p: string, fileId: string, suffix: string)
    requires |fileId| > 0 && AllIdChars(fileId)
    requires |suffix| == 0 || !IsIdChar(suffix[0])
    ensures UrlMatchAt(p + Head(true, true) + fileId + suffix, |p|) == Some(fileId)
  {
    var h := p + Head(true, true);
    var s := h + fileId + suffix;
    assert UrlHeadEnd(s, |p|) == |h| by {
      assert s[|p|..|h|] == Head(true, true);
      UrlHeadAccepted(s, |p|, true, true);
    }
    assert IdRunEnd(s, |h|) == |h| + |fileId| && s[|h|..|h| + |fileId|] == fileId by {
      IdAfterHead(h, fileId, suffix);
    }
  }

  /** The URL is searched for anywhere in the raw input: text before it
      (here any text without an `h`, so that no other match can start
      there) and a query or fragment after it do not change the id. */
  lemma UrlInsideTextParses(p: string, fileId: string, suffix: string)
    requires forall k :: 0 <= k < |p| ==> p[k] != 'h'
    requires |fileId| > 0 && AllIdChars(fileId)
    requires |suffix| == 0 || !IsIdChar(suffix[0])
    ensures ParseFileId(p + GetColabUrl(fileId) + suffix) == Success(fileId)
  {
    var s := p + Head(true, true) + fileId + suffix;
    assert p + GetColabUrl(fileId) + suffix == s;
    forall k | 0 <= k < |p|
      ensures UrlHeadEnd(s, k) == k
    {
      assert s[k] == p[k];
      NoHeadWithoutH(s, k);
    }
    UrlMatchAfter(p, fileId, suffix);
    FirstUrlWins(s, |p|);
  }

  lemma {:induction false} IdRunStops(s: string, i: nat, e: nat)
    requires i <= e <= |s|
    requires forall k :: i <= k < e ==> IsIdChar(s[k])
    requires e == |s| || !IsIdChar(s[e])
    ensures IdRunEnd(s, i) == e
    decreases e - i
  {
    if i < e {
      IdRunStops(s, i + 1, e);
    }
  }

  /** A bare id is accepted verbatim. */
  lemma BareIdAccepted(fileId: string)
    requires IsBareId(fileId)
    ensures ParseFileId(fileId) == Success(fileId)
  {
    NoUrlHeadInIdChars(fileId, 0);
    assert LeadingSpaces(fileId) == 0;
    assert TrimmedLength(fileId) == |fileId|;
    assert Strip(fileId) == fileId;
  }

  /** Text made of id characters holds no URL (`:` is not an id char). */
  lemma {:induction false} NoUrlHeadInIdChars(s: string, i: nat)
    requires i <= |s| && AllIdChars(s)
    ensures SearchUrl(s, i).None?
    decreases |s| - i
  {
    var c := i + |Scheme(ScanSecure(s, i))|;
    if c < |s| {
      assert IsIdChar(s[c]);
    }
    if HasPrefixAt(s, c, ColabHost) {
      PrefixChar(s, c, ColabHost, 0);
    }
    assert UrlHeadEnd(s, i) == i;
    if i < |s| {
      NoUrlHeadInIdChars(s, i + 1);
    }
  }

  /** Short input that is neither a URL nor a bare id fails, naming the
      input in the message. */
  lemma ShortInputRejected(source: string)
    requires AllIdChars(source) && |source| < MinBareIdLength
    ensures ParseFileId(source) == Failure(ParseErrorPrefix + source)
  {
    NoUrlHeadInIdChars(source, 0);
    assert LeadingSpaces(source) == 0;
    assert TrimmedLength(source) == |source|;
    assert Strip(source) == source;
  }
}
