/**
 * The request handler: the order of its early returns, style validation,
 * the redirect URL and the not-found response.
 */
module Router {
  import opened Wrappers
  import Text
  import Dataset
  import CodeKey
  import Matcher

  const ALLOWED_STYLES: seq<string> := ["apple", "google", "facebook", "twitter"]

  const STYLE_TO_FOLDER: map<string, string> := map[
    "apple" := "img-apple-160",
    "google" := "img-google-136",
    "facebook" := "img-facebook-96",
    "twitter" := "img-twitter-72"]

  const DEFAULT_STYLE: string := "apple"
  const CDN_BASE: string := "https://cdn.jsdelivr.net/gh/iamcal/emoji-data/"
  const INVALID_STYLE_PREFIX: string := "Invalid style. Valid styles are: "
  const NOT_FOUND_BODY: string := "Emoji not found"

  /** The exceptions the handler can raise instead of answering. */
  datatype JsError =
    | TypeError  // `random` on an empty table reads `.image` of `undefined`
    | URIError   // `decodeURIComponent` rejects the path

  /** What one request produces. `Redirect` is the (proxied) fetch of the CDN URL. */
  datatype Response =
    | Usage
    | Empty
    | Redirect(url: string)
    | BadStyle(status: int, body: string)
    | NotFound(status: int, body: string)
    | Thrown(error: JsError)

  /** `${STYLE_TO_FOLDER[style]}`: a style outside the table renders as `undefined`. */
  function FolderText(style: string): string
  {
    if style in STYLE_TO_FOLDER then STYLE_TO_FOLDER[style] else "undefined"
  }

  /** `buildRedirectUrl(style, path)`. */
  function BuildRedirectUrl(style: string, path: string): string
  {
    CDN_BASE + (FolderText(style) + "/" + path)
  }

  /** `"Invalid style. Valid styles are: " + ALLOWED_STYLES.join(", ")`. */
  function InvalidStyleBody(): string
  {
    INVALID_STYLE_PREFIX + Text.Join(ALLOWED_STYLES, ", ")
  }

  /** The three fixed routes, tried in this order, and the lookup route. */
  datatype Route = Root | Favicon | RandomEmoji | Lookup

  function RouteOf(path: string): Route
  {
    if path == "" then Root
    else if path == "favicon.ico" then Favicon
    else if path == "random" then RandomEmoji
    else Lookup
  }

  /** A trimmed path that none of the three fixed routes takes. */
  predicate IsLookupPath(path: string)
  {
    RouteOf(path) == Lookup
  }

  /** `random`: the picked record's image; on an empty table `.image` of `undefined` throws. */
  function RandomResponse(emoji: seq<Dataset.Emoji>, style: string, pick: nat): (r: Response)
    requires if |emoji| == 0 then pick == 0 else pick < |emoji|
    ensures r.Redirect? || r.Thrown?
  {
    if pick < |emoji| then Redirect(BuildRedirectUrl(style, emoji[pick].image)) else Thrown(TypeError)
  }

  /**
   * The lookup after the fixed routes and the style check: decode the path,
   * build the key, find the first matching record.
   */
  function LookupResponse(emoji: seq<Dataset.Emoji>, style: string, decoded: Option<string>): (r: Response)
    ensures r.Redirect? || r.NotFound? || r.Thrown?
  {
    match decoded
    case None => Thrown(URIError)
    case Some(text) =>
      var code := CodeKey.Key(text);
      match Matcher.Find(emoji, code, text)
      case None => NotFound(404, NOT_FOUND_BODY)
      case Some(i) => Redirect(BuildRedirectUrl(style, emoji[i].image))
  }

  /**
   * The handler, given the URL's pathname, its `style` query parameter,
   * `decodeURIComponent` (`None` when it throws) and the index that
   * `Math.floor(Math.random() * emoji.length)` picks.
   */
  function Handle(
    emoji: seq<Dataset.Emoji>,
    pathname: string,
    styleParam: Option<string>,
    decode: string -> Option<string>,
    pick: nat): Response
    requires if |emoji| == 0 then pick == 0 else pick < |emoji|
  {
    var path := Text.TrimSlashes(pathname);
    var style := styleParam.GetOr(DEFAULT_STYLE);
    match RouteOf(path)
    case Root => Usage
    case Favicon => Empty
    case RandomEmoji => RandomResponse(emoji, style, pick)
    case Lookup =>
      if style !in ALLOWED_STYLES then BadStyle(400, InvalidStyleBody())
      else LookupResponse(emoji, style, decode(path))
  }

  /** The allowed styles are exactly the styles that have a folder. */
  lemma StyleTablesAgree(style: string)
    ensures style in ALLOWED_STYLES <==> style in STYLE_TO_FOLDER
  {
  }

  /** The 400 body lists exactly the four styles, after `Invalid style. Valid styles are: `. */
  lemma InvalidStyleBodyText()
    ensures InvalidStyleBody() == INVALID_STYLE_PREFIX + "apple, google, facebook, twitter"
  {
    var a := ALLOWED_STYLES;
    assert a[3..] == ["twitter"];
    assert a[2..] == ["facebook"] + a[3..];
    assert a[1..] == ["google"] + a[2..];
    var j3 := Text.Join(a[3..], ", ");
    assert j3 == "twitter";
    var j2 := Text.Join(a[2..], ", ");
    assert j2 == "facebook" + ", " + j3;
    var j1 := Text.Join(a[1..], ", ");
    assert j1 == "google" + ", " + j2;
    assert Text.Join(a, ", ") == "apple" + ", " + j1;
  }

  /** For allowed styles the redirect URL determines both the style and the image path. */
  lemma RedirectUrlInjective(s1: string, p1: string, s2: string, p2: string)
    requires s1 in ALLOWED_STYLES && s2 in ALLOWED_STYLES
    requires BuildRedirectUrl(s1, p1) == BuildRedirectUrl(s2, p2)
    ensures s1 == s2 && p1 == p2
  {
    var f1, f2 := FolderText(s1), FolderText(s2);
    FolderHasNoSlash(s1);
    FolderHasNoSlash(s2);
    Text.CancelPrefix(CDN_BASE, f1 + "/" + p1, f2 + "/" + p2);
    Text.SplitAtSeparator(f1, p1, f2, p2, '/');
    FolderInjective(s1, s2);
  }

  lemma FolderHasNoSlash(style: string)
    requires style in ALLOWED_STYLES
    ensures forall i :: 0 <= i < |FolderText(style)| ==> FolderText(style)[i] != '/'
  {
  }

  lemma FolderInjective(s1: string, s2: string)
    requires s1 in ALLOWED_STYLES && s2 in ALLOWED_STYLES
    requires FolderText(s1) == FolderText(s2)
    ensures s1 == s2
  {
    var f1, f2 := FolderText(s1), FolderText(s2);
    assert f1[4] == f2[4] && |f1| == |f2|;
  }

  /** A pathname of slashes only, and nothing else, gets the usage text. */
  lemma HandleUsage(emoji: seq<Dataset.Emoji>, pathname: string, styleParam: Option<string>,
                    decode: string -> Option<string>, pick: nat)
    requires if |emoji| == 0 then pick == 0 else pick < |emoji|
    ensures Handle(emoji, pathname, styleParam, decode, pick) == Usage <==>
            forall i :: 0 <= i < |pathname| ==> pathname[i] == '/'
  {
    Text.TrimSlashesEmpty(pathname);
    assert Handle(emoji, pathname, styleParam, decode, pick) == Usage <==> RouteOf(Text.TrimSlashes(pathname)) == Root;
  }

  /** `favicon.ico`, whatever the style, gets the empty response. */
  lemma HandleFavicon(emoji: seq<Dataset.Emoji>, pathname: string, styleParam: Option<string>,
                      decode: string -> Option<string>, pick: nat)
    requires if |emoji| == 0 then pick == 0 else pick < |emoji|
    ensures Handle(emoji, pathname, styleParam, decode, pick) == Empty <==>
            Text.TrimSlashes(pathname) == "favicon.ico"
  {
  }

  /**
   * `random` is answered before the style is validated: with any style at
   * all it redirects to the picked record's image, so every record can be
   * picked; an empty table raises a TypeError.
   */
  lemma HandleRandom(emoji: seq<Dataset.Emoji>, pathname: string, styleParam: Option<string>,
                     decode: string -> Option<string>, pick: nat)
    requires if |emoji| == 0 then pick == 0 else pick < |emoji|
    requires Text.TrimSlashes(pathname) == "random"
    ensures |emoji| == 0 ==> Handle(emoji, pathname, styleParam, decode, pick) == Thrown(TypeError)
    ensures |emoji| > 0 ==>
      Handle(emoji, pathname, styleParam, decode, pick) ==
        Redirect(BuildRedirectUrl(styleParam.GetOr(DEFAULT_STYLE), emoji[pick].image))
  {
    assert RouteOf("random") == RandomEmoji;
  }

  /** `random` with a style outside the table fetches from the folder `undefined`. */
  lemma HandleRandomUnknownStyle(emoji: seq<Dataset.Emoji>, pathname: string, style: string,
                                 decode: string -> Option<string>, pick: nat)
    requires pick < |emoji|
    requires Text.TrimSlashes(pathname) == "random"
    requires style !in ALLOWED_STYLES
    ensures Handle(emoji, pathname, Some(style), decode, pick) ==
            Redirect(CDN_BASE + ("undefined" + "/" + emoji[pick].image))
  {
    HandleRandom(emoji, pathname, Some(style), decode, pick);
    StyleTablesAgree(style);
  }

  /** A missing style behaves as `apple`. */
  lemma HandleDefaultStyle(emoji: seq<Dataset.Emoji>, pathname: string,
                           decode: string -> Option<string>, pick: nat)
    requires if |emoji| == 0 then pick == 0 else pick < |emoji|
    ensures Handle(emoji, pathname, None, decode, pick) == Handle(emoji, pathname, Some("apple"), decode, pick)
  {
  }

  /** Any other path with a style outside the list gets 400 and the list of styles. */
  lemma HandleBadStyle(emoji: seq<Dataset.Emoji>, pathname: string, styleParam: Option<string>,
                       decode: string -> Option<string>, pick: nat)
    requires if |emoji| == 0 then pick == 0 else pick < |emoji|
    requires IsLookupPath(Text.TrimSlashes(pathname))
    ensures Handle(emoji, pathname, styleParam, decode, pick).BadStyle? <==>
            styleParam.GetOr(DEFAULT_STYLE) !in ALLOWED_STYLES
    ensures styleParam.GetOr(DEFAULT_STYLE) !in ALLOWED_STYLES ==>
      Handle(emoji, pathname, styleParam, decode, pick) ==
        BadStyle(400, INVALID_STYLE_PREFIX + "apple, google, facebook, twitter")
  {
    InvalidStyleBodyText();
  }

  /** A path that does not decode raises `URIError` once the style is valid. */
  lemma HandleMalformedPath(emoji: seq<Dataset.Emoji>, pathname: string, styleParam: Option<string>,
                            decode: string -> Option<string>, pick: nat)
    requires if |emoji| == 0 then pick == 0 else pick < |emoji|
    requires IsLookupPath(Text.TrimSlashes(pathname))
    requires styleParam.GetOr(DEFAULT_STYLE) in ALLOWED_STYLES
    ensures Handle(emoji, pathname, styleParam, decode, pick) == Thrown(URIError) <==>
            decode(Text.TrimSlashes(pathname)).None?
  {
  }

  /** A lookup gets 404 "Emoji not found" exactly when no record matches. */
  lemma HandleNotFound(emoji: seq<Dataset.Emoji>, pathname: string, styleParam: Option<string>,
                       decode: string -> Option<string>, pick: nat, text: string)
    requires if |emoji| == 0 then pick == 0 else pick < |emoji|
    requires IsLookupPath(Text.TrimSlashes(pathname))
    requires styleParam.GetOr(DEFAULT_STYLE) in ALLOWED_STYLES
    requires decode(Text.TrimSlashes(pathname)) == Some(text)
    ensures Handle(emoji, pathname, styleParam, decode, pick) == NotFound(404, "Emoji not found") <==>
            forall k :: 0 <= k < |emoji| ==> !Matcher.Matches(emoji[k], CodeKey.Key(text), text)
  {
  }

  /** A lookup redirects to the image of the first matching record, in the requested style. */
  lemma HandleFirstMatch(emoji: seq<Dataset.Emoji>, pathname: string, styleParam: Option<string>,
                         decode: string -> Option<string>, pick: nat, text: string, i: nat)
    requires if |emoji| == 0 then pick == 0 else pick < |emoji|
    requires IsLookupPath(Text.TrimSlashes(pathname))
    requires styleParam.GetOr(DEFAULT_STYLE) in ALLOWED_STYLES
    requires decode(Text.TrimSlashes(pathname)) == Some(text)
    requires i < |emoji| && Matcher.Matches(emoji[i], CodeKey.Key(text), text)
    requires forall k :: 0 <= k < i ==> !Matcher.Matches(emoji[k], CodeKey.Key(text), text)
    ensures Handle(emoji, pathname, styleParam, decode, pick) ==
            Redirect(CDN_BASE + (STYLE_TO_FOLDER[styleParam.GetOr(DEFAULT_STYLE)] + "/" + emoji[i].image))
  {
    Matcher.FindFirst(emoji, CodeKey.Key(text), text, i);
  }

  /**
   * Querying with the text whose key is a record's `unified` (in any case),
   * that `unified` without its final `-fe0f`, or that `unified` with `-fe0f`
   * added, is answered with a redirect to that record or to an earlier
   * matching one.
   */
  lemma HandleByUnified(emoji: seq<Dataset.Emoji>, pathname: string, styleParam: Option<string>,
                        decode: string -> Option<string>, pick: nat, text: string, i: nat)
    requires if |emoji| == 0 then pick == 0 else pick < |emoji|
    requires IsLookupPath(Text.TrimSlashes(pathname))
    requires styleParam.GetOr(DEFAULT_STYLE) in ALLOWED_STYLES
    requires decode(Text.TrimSlashes(pathname)) == Some(text)
    requires i < |emoji|
    requires || Text.Lower(emoji[i].unified) == CodeKey.Key(text)
             || Text.Lower(emoji[i].unified) == CodeKey.Key(text) + Matcher.SELECTOR
             || Text.Lower(emoji[i].unified) + Matcher.SELECTOR == CodeKey.Key(text)
    ensures exists j :: (0 <= j <= i && Matcher.Matches(emoji[j], CodeKey.Key(text), text) &&
      Handle(emoji, pathname, styleParam, decode, pick) ==
        Redirect(BuildRedirectUrl(styleParam.GetOr(DEFAULT_STYLE), emoji[j].image)))
  {
    var code := CodeKey.Key(text);
    var style := styleParam.GetOr(DEFAULT_STYLE);
    assert Matcher.Matches(emoji[i], code, text) by {
      CodeKey.KeyIsLowerCase(text);
      if Text.Lower(emoji[i].unified) + Matcher.SELECTOR == code {
        Matcher.MatchesSelectorStripped(emoji[i], code, text);
      }
    }
    Matcher.FindNoLater(emoji, code, text, i);
    var j := Matcher.Find(emoji, code, text).value;
    assert Matcher.Matches(emoji[j], code, text);
    assert Handle(emoji, pathname, styleParam, decode, pick) == LookupResponse(emoji, style, Some(text));
    assert LookupResponse(emoji, style, Some(text)) == Redirect(BuildRedirectUrl(style, emoji[j].image));
  }
}
