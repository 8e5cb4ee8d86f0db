/**
 * The checker of alexachecker.py: place_flag hides a flag in an audio file,
 * uploads it and records the query the service redirects to; check_flag
 * later fetches that query's page and compares the audio it links to with
 * the upload. The network is modelled by the replies it gives, and MD5
 * digests by the strings they produce.
 */
module AlexaChecker {
  import opened Wrappers
  import opened Paths
  import opened AudioUtils

  /** The verdicts the game server's checker interface knows. */
  datatype Verdict = OK | NOTFOUND | NOTWORKING | TIMEOUT

  /** A check either returns a verdict or lets an exception escape. */
  datatype Outcome = Returns(verdict: Verdict) | Raises

  /** The record place_flag stores per tick: the query id and the upload's MD5 digest. */
  datatype Record = Record(queryId: string, md5hash: string)

  const FlagPrefix: string := "FAUST_"

  /** re.sub("^FAUST_", "", flag): a leading "FAUST_" is cut off, once. */
  function ShortenFlag(flag: string): (r: string)
    ensures |flag| >= 6 && flag[..6] == FlagPrefix ==> r == flag[6..]
    ensures !(|flag| >= 6 && flag[..6] == FlagPrefix) ==> r == flag
  {
    if |flag| >= |FlagPrefix| && flag[..|FlagPrefix|] == FlagPrefix then flag[|FlagPrefix|..] else flag
  }

  /** "FAUST_" + s shortens to s, and only the leading prefix goes: "FAUST_FAUST_" + s shortens to "FAUST_" + s. */
  lemma {:induction false} ShortenFlagPrefixed(s: string)
    ensures ShortenFlag(FlagPrefix + s) == s
    ensures ShortenFlag(FlagPrefix + FlagPrefix + s) == FlagPrefix + s
  {
    assert (FlagPrefix + s)[..6] == FlagPrefix;
    assert (FlagPrefix + FlagPrefix + s)[..6] == FlagPrefix;
    assert (FlagPrefix + FlagPrefix + s)[6..] == FlagPrefix + s;
  }

  /** A flag without the prefix is used as it is; shortening never lengthens, and it is done at most once. */
  lemma {:induction false} ShortenFlagBounds(flag: string)
    ensures |ShortenFlag(flag)| == |flag| || |ShortenFlag(flag)| == |flag| - 6
    ensures ShortenFlag(flag) == flag <==> !(|flag| >= 6 && flag[..6] == FlagPrefix)
  {
  }

  /** The files place_flag works through, derived from the flag and a per-call uuid4 hex string. */
  datatype Plan = Plan(watermark: string, wavFile: string, oggFile: string)

  function PlanPlacement(flag: string, prefix: string): Plan {
    Plan(ShortenFlag(flag), TmpPath(prefix + ".wav"), TmpPath(prefix + ".ogg"))
  }

  predicate IsHexDigit(c: char) {
    '0' <= c <= '9' || 'a' <= c <= 'f'
  }

  /** str(uuid.uuid4()).replace("-", ""): 32 lower-case hexadecimal digits. */
  predicate IsUuidHex(prefix: string) {
    |prefix| == 32 && forall i :: 0 <= i < |prefix| ==> IsHexDigit(prefix[i])
  }

  /**
   * Both intermediate files lie directly in /tmp under the same name and
   * differ only in their extension; decoding the upload would read it
   * back from the other one's path.
   */
  lemma {:induction false} IntermediateFiles(flag: string, prefix: string)
    requires IsUuidHex(prefix)
    ensures var plan := PlanPlacement(flag, prefix);
      plan.wavFile != plan.oggFile &&
      plan.wavFile[..|plan.wavFile| - 4] == plan.oggFile[..|plan.oggFile| - 4] == TmpPath(prefix) &&
      ConvertToWav(plan.oggFile) == Ok(plan.wavFile)
  {
    var plan := PlanPlacement(flag, prefix);
    assert plan.wavFile[|plan.wavFile| - 3] == 'w' && plan.oggFile[|plan.oggFile| - 3] == 'o';
    assert plan.wavFile[..|plan.wavFile| - 4] == TmpPath(prefix);
    assert plan.oggFile[..|plan.oggFile| - 4] == TmpPath(prefix);
    assert prefix[0] != '.' && '/' !in prefix;
    assert IsExtension(".ogg") && '/' !in ".ogg";
    ConvertedPath("/tmp/", prefix, ".ogg");
    JoinAssociates("/tmp/", prefix, ".ogg");
    JoinAssociates("/tmp/", prefix, ".wav");
  }

  /** "{}/alexa/query/{}".format(baseUrl, queryId). */
  function QueryUrl(baseUrl: string, queryId: string): string {
    baseUrl + "/alexa/query/" + queryId
  }

  predicate IsIdChar(c: char) {
    'a' <= c <= 'z' || '0' <= c <= '9'
  }

  /** [a-z0-9]{32}. */
  predicate IsQueryId(s: string) {
    |s| == 32 && forall i :: 0 <= i < |s| ==> IsIdChar(s[i])
  }

  /** A character of a regular expression made of literals and '.' against one character of text. */
  predicate PatternCharMatches(p: char, c: char) {
    if p == '.' then c != '\n' else p == c
  }

  predicate LiteralMatches(pattern: string, text: string) {
    |text| == |pattern| && forall i :: 0 <= i < |text| ==> PatternCharMatches(pattern[i], text[i])
  }

  /** The characters with a meaning in a pattern, other than '.'. */
  predicate IsPatternSyntax(c: char) {
    c == '^' || c == '$' || c == '*' || c == '+' || c == '?' || c == '{' || c == '}' ||
    c == '[' || c == ']' || c == '\\' || c == '|' || c == '(' || c == ')'
  }

  /** A base URL that is literals and dots once put inside a pattern. */
  predicate IsPlainUrl(baseUrl: string) {
    forall i :: 0 <= i < |baseUrl| ==> !IsPatternSyntax(baseUrl[i])
  }

  /**
   * re.match("^{}/alexa/query/[a-z0-9]{32}$".format(baseUrl), url), for a
   * base URL without regular-expression syntax other than '.': each '.' of
   * the base matches any character but a newline, and '$' also matches
   * before one final newline.
   */
  predicate RedirectMatchesAsWritten(baseUrl: string, url: string)
    requires IsPlainUrl(baseUrl)
  {
    var pattern := baseUrl + "/alexa/query/";
    var n := |pattern|;
    (|url| == n + 32 || (|url| == n + 33 && url[n + 32] == '\n')) &&
    LiteralMatches(pattern, url[..n]) && IsQueryId(url[n..n + 32])
  }

  /** The redirect meant: the base URL itself, "/alexa/query/" and a 32-character query id, nothing more. */
  predicate RedirectAccepted(baseUrl: string, url: string) {
    var n := |baseUrl| + 13;
    |url| == n + 32 && url[..n] == baseUrl + "/alexa/query/" && IsQueryId(url[n..])
  }

  /** Every redirect the intended check accepts, the written pattern accepts too. */
  lemma {:induction false} AcceptedRedirectMatches(baseUrl: string, url: string)
    requires IsPlainUrl(baseUrl) && RedirectAccepted(baseUrl, url)
    ensures RedirectMatchesAsWritten(baseUrl, url)
  {
    var pattern := baseUrl + "/alexa/query/";
    assert url[..|pattern|] == pattern;
    assert forall i :: 0 <= i < |pattern| ==> PatternCharMatches(pattern[i], url[..|pattern|][i]) by {
      forall i | 0 <= i < |pattern| ensures PatternCharMatches(pattern[i], url[..|pattern|][i]) {
        assert pattern[i] != '.' ==> url[i] == pattern[i];
        if pattern[i] == '.' {
          assert url[i] == '.';
        }
      }
    }
  }

  /** The query id taken after the last '/' of an accepted redirect is the 32 characters of the redirect. */
  lemma {:induction false} AcceptedRedirectQueryId(baseUrl: string, url: string)
    requires RedirectAccepted(baseUrl, url)
    ensures var id := AfterLast(url, '/');
      IsQueryId(id) && url == QueryUrl(baseUrl, id)
  {
    var n := |baseUrl| + 13;
    var id := url[n..];
    assert '/' !in id by {
      forall i | 0 <= i < |id| ensures id[i] != '/' {
        assert IsIdChar(id[i]);
      }
    }
    assert url == (baseUrl + "/alexa/query") + ['/'] + id;
    AfterLastOfJoin(baseUrl + "/alexa/query", '/', id);
  }

  /** The reply to the upload: a timeout, another request exception, or the final status and URL after redirects. */
  datatype PostReply = PostTimeout | PostFailure | Posted(status: int, url: string)

  /** What place_flag returns, and the record it stores when it succeeds. */
  datatype Placement = Placement(verdict: Verdict, stored: Option<Record>)

  /**
   * place_flag after the upload: a timeout is TIMEOUT, another request
   * exception, a status other than 200 or an unexpected redirect is
   * NOTWORKING; otherwise the query id and the upload's digest are stored.
   */
  function PlaceFlag(baseUrl: string, reply: PostReply, uploadMd5: string): (p: Placement)
    ensures reply.PostTimeout? <==> p.verdict == TIMEOUT
    ensures p.verdict == OK <==> p.stored.Some?
    ensures p.verdict == OK <==> reply.Posted? && reply.status == 200 && RedirectAccepted(baseUrl, reply.url)
    ensures p.stored.Some? ==>
      IsQueryId(p.stored.value.queryId) && p.stored.value.md5hash == uploadMd5 &&
      reply.url == QueryUrl(baseUrl, p.stored.value.queryId)
    ensures p.stored.Some? ==> p.stored.value == Record(AfterLast(reply.url, '/'), uploadMd5)
  {
    match reply
    case PostTimeout => Placement(TIMEOUT, None)
    case PostFailure => Placement(NOTWORKING, None)
    case Posted(status, url) =>
      if status != 200 then Placement(NOTWORKING, None)
      else if !RedirectAccepted(baseUrl, url) then Placement(NOTWORKING, None)
      else
        AcceptedRedirectQueryId(baseUrl, url);
        Placement(OK, Some(Record(AfterLast(url, '/'), uploadMd5)))
  }

  /**
   * place_flag as written, with the regular expression's acceptance of the
   * redirect: the same ladder, and the same record taken after the last '/'
   * of whatever URL the pattern let through.
   */
  function PlaceFlagAsWritten(baseUrl: string, reply: PostReply, uploadMd5: string): (p: Placement)
    requires IsPlainUrl(baseUrl)
    ensures reply.PostTimeout? <==> p.verdict == TIMEOUT
    ensures p.verdict == OK <==> p.stored.Some?
    ensures p.verdict == OK <==> reply.Posted? && reply.status == 200 && RedirectMatchesAsWritten(baseUrl, reply.url)
    ensures p.verdict != OK ==> p.verdict == TIMEOUT || p.verdict == NOTWORKING
    ensures p.stored.Some? ==> p.stored.value == Record(AfterLast(reply.url, '/'), uploadMd5)
    ensures p.stored.Some? ==> var id := p.stored.value.queryId;
      |id| >= 32 && IsQueryId(id[..32]) && (|id| == 32 || (|id| == 33 && id[32] == '\n'))
  {
    match reply
    case PostTimeout => Placement(TIMEOUT, None)
    case PostFailure => Placement(NOTWORKING, None)
    case Posted(status, url) =>
      if status != 200 then Placement(NOTWORKING, None)
      else if !RedirectMatchesAsWritten(baseUrl, url) then Placement(NOTWORKING, None)
      else
        MatchedRedirectQueryId(baseUrl, url);
        Placement(OK, Some(Record(AfterLast(url, '/'), uploadMd5)))
  }

  /**
   * What follows the last '/' of a redirect the written pattern lets
   * through: the 32-character query id, followed by at most a newline.
   */
  lemma {:induction false} MatchedRedirectQueryId(baseUrl: string, url: string)
    requires IsPlainUrl(baseUrl) && RedirectMatchesAsWritten(baseUrl, url)
    ensures var id := AfterLast(url, '/');
      |id| >= 32 && IsQueryId(id[..32]) && (|id| == 32 || (|id| == 33 && id[32] == '\n'))
  {
    var pattern := baseUrl + "/alexa/query/";
    var n := |pattern|;
    var rest := url[n..];
    assert pattern[n - 1] == '/' && PatternCharMatches(pattern[n - 1], url[..n][n - 1]);
    assert rest[..32] == url[n..n + 32];
    assert '/' !in rest by {
      forall i | 0 <= i < |rest| ensures rest[i] != '/' {
        if i < 32 {
          assert IsIdChar(url[n..n + 32][i]);
        }
      }
    }
    assert url == url[..n - 1] + ['/'] + rest;
    AfterLastOfJoin(url[..n - 1], '/', rest);
  }

  /** Where the intended check accepts the redirect, the program as written places the same record. */
  lemma {:induction false} CorrectedPlacementAgrees(baseUrl: string, reply: PostReply, uploadMd5: string)
    requires IsPlainUrl(baseUrl) && PlaceFlag(baseUrl, reply, uploadMd5).verdict == OK
    ensures PlaceFlagAsWritten(baseUrl, reply, uploadMd5) == PlaceFlag(baseUrl, reply, uploadMd5)
  {
    AcceptedRedirectMatches(baseUrl, reply.url);
  }

  const ExampleBase: string := "http://10.66.1.2:8000"
  const ExampleId: string := "0123456789abcdef0123456789abcdef"

  lemma ExampleIsQueryId()
    ensures IsPlainUrl(ExampleBase) && IsQueryId(ExampleId) && '/' !in ExampleId
  {
    assert forall i :: 0 <= i < |ExampleId| ==> IsIdChar(ExampleId[i]) && ExampleId[i] != '/';
  }

  /** The written pattern accepts a redirect followed by one newline. */
  lemma {:induction false} TrailingNewlineMatches(baseUrl: string, id: string)
    requires IsPlainUrl(baseUrl) && IsQueryId(id)
    ensures RedirectMatchesAsWritten(baseUrl, QueryUrl(baseUrl, id) + "\n")
  {
    var url := QueryUrl(baseUrl, id) + "\n";
    var pattern := baseUrl + "/alexa/query/";
    var n := |pattern|;
    assert url[..n] == pattern;
    assert url[n..n + 32] == id;
    assert LiteralMatches(pattern, url[..n]) by {
      forall i | 0 <= i < n ensures PatternCharMatches(pattern[i], url[..n][i]) {
        if pattern[i] == '.' {
          assert url[..n][i] == '.';
        }
      }
    }
  }

  /**
   * A redirect with one trailing newline passes the written pattern: the
   * stored query id is then 33 characters long, so check_flag asks for a
   * different page than the one the service redirected to. The intended
   * check refuses the redirect.
   */
  lemma {:induction false} TrailingNewlineStored(baseUrl: string, id: string, uploadMd5: string)
    requires IsPlainUrl(baseUrl) && IsQueryId(id)
    ensures var url := QueryUrl(baseUrl, id) + "\n";
      var p := PlaceFlagAsWritten(baseUrl, Posted(200, url), uploadMd5);
      p.verdict == OK && p.stored.value.queryId == id + "\n" && !IsQueryId(p.stored.value.queryId) &&
      QueryUrl(baseUrl, p.stored.value.queryId) != QueryUrl(baseUrl, id) &&
      PlaceFlag(baseUrl, Posted(200, url), uploadMd5).verdict == NOTWORKING
  {
    TrailingNewlineMatches(baseUrl, id);
    TrailingNewlineId(baseUrl, id);
    assert |QueryUrl(baseUrl, id + "\n")| != |QueryUrl(baseUrl, id)|;
  }

  /** The text after the last '/' of such a redirect is the id with its newline. */
  lemma {:induction false} TrailingNewlineId(baseUrl: string, id: string)
    requires IsQueryId(id)
    ensures AfterLast(QueryUrl(baseUrl, id) + "\n", '/') == id + "\n"
  {
    assert '/' !in id + "\n" by {
      forall i | 0 <= i < 33 ensures (id + "\n")[i] != '/' {
        if i < 32 {
          assert IsIdChar(id[i]);
        }
      }
    }
    assert QueryUrl(baseUrl, id) + "\n" == (baseUrl + "/alexa/query") + ['/'] + (id + "\n");
    AfterLastOfJoin(baseUrl + "/alexa/query", '/', id + "\n");
  }

  /** The unescaped dots of the base URL match any character, so a redirect to another host passes. */
  lemma {:induction false} DotMatchesAnyCharacter()
    ensures var url := "http://10x66x1x2:8000/alexa/query/" + ExampleId;
      RedirectMatchesAsWritten(ExampleBase, url) && !RedirectAccepted(ExampleBase, url)
  {
    ExampleIsQueryId();
    var url := "http://10x66x1x2:8000/alexa/query/" + ExampleId;
    var pattern := ExampleBase + "/alexa/query/";
    var n := |pattern|;
    assert url[..n] == "http://10x66x1x2:8000/alexa/query/";
    assert url[n..n + 32] == ExampleId;
    assert LiteralMatches(pattern, url[..n]) by {
      forall i | 0 <= i < n ensures PatternCharMatches(pattern[i], url[..n][i]) {
      }
    }
    assert url[9] != (ExampleBase + "/alexa/query/")[9];
  }

  /** The reply to the GET of a query page: the status and the src attributes of its //audio/source[@src] elements, in document order. */
  datatype PageReply = PageTimeout | PageFailure | Page(status: int, audioSources: seq<string>)

  /** The reply to the audio download: the status and the MD5 digest of the body written to disk. */
  datatype DownloadReply = DownloadTimeout | DownloadFailure | Download(status: int, md5hash: string)

  /** requests' Response.ok: no client or server error status. */
  predicate ResponseOk(status: int) {
    !(400 <= status < 600)
  }

  /** The file the audio is saved to: os.path.join("/tmp", src.rsplit('/', 1)[-1]). */
  function DownloadPath(src: string): (path: string)
    ensures var name := AfterLast(src, '/'); path == TmpPath(name) && '/' !in name
  {
    TmpPath(AfterLast(src, '/'))
  }

  /** Names whose path in /tmp is a directory, so that opening it for writing raises. */
  predicate IsDirectoryName(name: string) {
    name == "" || name == "." || name == ".."
  }

  /**
   * check_flag: NOTFOUND without a stored record or for a 404 page;
   * TIMEOUT when either request times out; NOTWORKING for another status,
   * a page without audio source, a failed download or a digest mismatch;
   * OK otherwise. Other request exceptions escape, as does opening a
   * download path that names a directory.
   */
  function CheckFlag(baseUrl: string, record: Option<Record>, fetchPage: string -> PageReply,
                     fetchAudio: string -> DownloadReply): (r: Outcome)
    ensures record.None? ==> r == Returns(NOTFOUND)
    ensures r.Raises? <==> (
      record.Some? &&
      var page := fetchPage(QueryUrl(baseUrl, record.value.queryId));
      page.PageFailure? ||
      (page.Page? && page.status == 200 && |page.audioSources| > 0 &&
       var download := fetchAudio(baseUrl + page.audioSources[0]);
       download.DownloadFailure? ||
       (download.Download? && ResponseOk(download.status) && IsDirectoryName(AfterLast(page.audioSources[0], '/')))))
  {
    if record.None? then Returns(NOTFOUND)
    else
      match fetchPage(QueryUrl(baseUrl, record.value.queryId))
      case PageTimeout => Returns(TIMEOUT)
      case PageFailure => Raises
      case Page(status, sources) =>
        if status == 404 then Returns(NOTFOUND)
        else if status != 200 then Returns(NOTWORKING)
        else if |sources| == 0 then Returns(NOTWORKING)
        else
          match fetchAudio(baseUrl + sources[0])
          case DownloadTimeout => Returns(TIMEOUT)
          case DownloadFailure => Raises
          case Download(audioStatus, digest) =>
            if !ResponseOk(audioStatus) then Returns(NOTWORKING)
            else if IsDirectoryName(AfterLast(sources[0], '/')) then Raises
            else if digest != record.value.md5hash then Returns(NOTWORKING)
            else Returns(OK)
  }

  /** The conditions under which a stored flag is confirmed. */
  predicate Confirms(baseUrl: string, record: Record, page: PageReply, fetchAudio: string -> DownloadReply) {
    page.Page? && page.status == 200 && |page.audioSources| > 0 &&
    var src := page.audioSources[0];
    var download := fetchAudio(baseUrl + src);
    download.Download? && ResponseOk(download.status) && !IsDirectoryName(AfterLast(src, '/')) &&
    download.md5hash == record.md5hash
  }

  /** OK exactly when the page of the stored query leads to audio whose digest is the stored one. */
  lemma {:induction false} CheckFlagOk(baseUrl: string, record: Option<Record>, fetchPage: string -> PageReply,
                                       fetchAudio: string -> DownloadReply)
    ensures CheckFlag(baseUrl, record, fetchPage, fetchAudio) == Returns(OK) <==>
      record.Some? && Confirms(baseUrl, record.value, fetchPage(QueryUrl(baseUrl, record.value.queryId)), fetchAudio)
  {
  }

  /** NOTFOUND exactly when nothing was stored or the stored query's page is gone. */
  lemma {:induction false} CheckFlagNotFound(baseUrl: string, record: Option<Record>, fetchPage: string -> PageReply,
                                             fetchAudio: string -> DownloadReply)
    ensures CheckFlag(baseUrl, record, fetchPage, fetchAudio) == Returns(NOTFOUND) <==>
      record.None? ||
      var page := fetchPage(QueryUrl(baseUrl, record.value.queryId));
      page.Page? && page.status == 404
  {
  }

  /** TIMEOUT exactly when one of the two requests check_flag makes times out. */
  lemma {:induction false} CheckFlagTimeout(baseUrl: string, record: Option<Record>, fetchPage: string -> PageReply,
                                            fetchAudio: string -> DownloadReply)
    ensures CheckFlag(baseUrl, record, fetchPage, fetchAudio) == Returns(TIMEOUT) <==>
      record.Some? &&
      var page := fetchPage(QueryUrl(baseUrl, record.value.queryId));
      page.PageTimeout? ||
      (page.Page? && page.status == 200 && |page.audioSources| > 0 &&
       fetchAudio(baseUrl + page.audioSources[0]).DownloadTimeout?)
  {
  }

  /**
   * NOTWORKING exactly when the stored query's page answers with another
   * status than 200 or 404, names no audio, or leads to a download that
   * fails with an error status or whose digest differs from the stored one.
   */
  lemma {:induction false} CheckFlagNotWorking(baseUrl: string, record: Option<Record>, fetchPage: string -> PageReply,
                                               fetchAudio: string -> DownloadReply)
    ensures CheckFlag(baseUrl, record, fetchPage, fetchAudio) == Returns(NOTWORKING) <==>
      record.Some? &&
      var page := fetchPage(QueryUrl(baseUrl, record.value.queryId));
      page.Page? && page.status != 404 &&
      (page.status != 200 || |page.audioSources| == 0 ||
       var src := page.audioSources[0];
       var download := fetchAudio(baseUrl + src);
       download.Download? &&
       (!ResponseOk(download.status) ||
        (!IsDirectoryName(AfterLast(src, '/')) && download.md5hash != record.value.md5hash)))
  {
  }

  /**
   * Place then check: after a successful placement check_flag asks for the
   * very page the service redirected the upload to, and confirms the flag
   * when that page links the uploaded audio unchanged.
   */
  lemma {:induction false} PlacedFlagChecks(baseUrl: string, reply: PostReply, uploadMd5: string,
                                            fetchPage: string -> PageReply, fetchAudio: string -> DownloadReply)
    requires PlaceFlag(baseUrl, reply, uploadMd5).verdict == OK
    ensures var record := PlaceFlag(baseUrl, reply, uploadMd5).stored;
      QueryUrl(baseUrl, record.value.queryId) == reply.url &&
      (CheckFlag(baseUrl, record, fetchPage, fetchAudio) == Returns(OK) <==>
        Confirms(baseUrl, record.value, fetchPage(reply.url), fetchAudio))
  {
    CheckFlagOk(baseUrl, PlaceFlag(baseUrl, reply, uploadMd5).stored, fetchPage, fetchAudio);
  }
}
