/**
 * The paste record and the pure rules around it: the syntax table, the validation and
 * defaults createPaste applies, and the tweaks made before a paste is shown or cloned.
 * Strings hold one element per byte, so |s| is Go's len(s).
 */
module Pastes {
  import opened Wrappers
  import Strconv

  /**
   * A paste. `expirationFormatted` stands for the countdown text: Some(t) when a countdown
   * to Unix time t is shown, None when the text is empty. CreatedOnFormatted is not modelled.
   */
  datatype Paste = Paste(
    url: string,
    title: string,
    body: string,
    syntax: string,
    mime: string,
    size: int,
    clicks: int,
    expiration: int,
    createdOn: int,
    expirationFormatted: Option<int>)

  /** The ways a create or a read can fail. */
  datatype Error = TitleTooLong | EmptyBody | BodyTooBig | InvalidRoute | NotFound | StoreUnavailable

  const DefaultTitle: string := "Untitled paste"
  const MaxTitle: nat := 50
  const MaxBody: nat := 100000
  const DefaultSyntax: string := "text"
  const DefaultMime: string := "text/plain"
  /** The syntax tag that is shown as plain, unstyled text. */
  const GenericSyntax: string := "generic"
  const CloneSuffix: string := " Copy"

  /** The fixed MIME type to syntax tag table. */
  const MimeTypes: map<string, string> := map[
    "text/plain" := "text",
    "text/generic" := "generic",
    "text/javascript" := "javascript",
    "text/x-csrc" := "clike",
    "text/x-cmake" := "cmake",
    "text/css" := "css",
    "text/x-d" := "d",
    "text/x-diff" := "diff",
    "text/x-dockerfile" := "dockerfile",
    "text/x-erlang" := "erlang",
    "text/x-go" := "go",
    "text/x-haskell" := "haskell",
    "text/html" := "xml",
    "text/x-java" := "clike",
    "jinja2" := "jinja2",
    "text/x-kotlin" := "clike",
    "text/x-lua" := "lua",
    "text/x-markdown" := "markdown",
    "text/x-perl" := "perl",
    "text/x-php" := "php",
    "text/x-python" := "python",
    "text/x-rpm-changes" := "rpm",
    "text/x-rst" := "rst",
    "text/x-ruby" := "ruby",
    "text/x-rust" := "rust",
    "text/x-sh" := "shell",
    "text/x-sql" := "sql",
    "text/x-swift" := "swift",
    "text/x-yaml" := "yaml",
    "application/xml" := "xml"
  ]

  /** No syntax tag in the table is empty. */
  lemma TableTagsNonEmpty()
    ensures forall m :: m in MimeTypes ==> MimeTypes[m] != ""
  {
  }

  /** `mimeTypes[mime]`: the table's tag, or Go's zero value "" for a type not in the table. */
  function SyntaxFor(mime: string): (syntax: string)
    ensures syntax == "" <==> mime !in MimeTypes
    ensures mime in MimeTypes ==> syntax == MimeTypes[mime]
  {
    TableTagsNonEmpty();
    if mime in MimeTypes then MimeTypes[mime] else ""
  }

  /**
   * The title and body rules of createPaste, in their order: the first rule broken,
   * or None. An empty title is not an error: it is replaced by DefaultTitle.
   */
  function Validate(title: string, body: string): (e: Option<Error>)
    ensures e.None? <==> |title| <= MaxTitle && 1 <= |body| <= MaxBody
  {
    if |title| > MaxTitle then Some(TitleTooLong)
    else if |body| == 0 then Some(EmptyBody)
    else if |body| > MaxBody then Some(BodyTooBig)
    else None
  }

  /**
   * createPaste with the id generateUrl returns and the current Unix time as parameters:
   * the checked inputs with their defaults, or the first rule broken.
   */
  function BuildPaste(title: string, body: string, syntax: string, mime: string, expire: string,
                      url: string, now: int): (r: Result<Paste, Error>)
    ensures r.Failure? <==> Validate(title, body).Some?
    ensures r.Failure? ==> Some(r.error) == Validate(title, body)
    ensures r.Success? ==> 1 <= |r.value.title| <= MaxTitle && 1 <= |r.value.body| <= MaxBody
    ensures r.Success? ==> r.value.url == url && r.value.createdOn == now
  {
    match Validate(title, body)
    case Some(e) => Failure(e)
    case None =>
      var fallback := syntax == "" || mime == "";
      Success(Paste(
        url := url,
        title := if title == "" then DefaultTitle else title,
        body := body,
        syntax := if fallback then DefaultSyntax else syntax,
        mime := if fallback then DefaultMime else mime,
        size := 0,
        clicks := 0,
        expiration := Strconv.ParseIntOrZero(expire),
        createdOn := now,
        expirationFormatted := None))
  }

  /**
   * The changes getPaste makes before returning a fetched paste: a countdown to
   * createdOn + expiration when the paste expires, and the "generic" tag shown as "".
   */
  function ForDisplay(p: Paste): (d: Paste)
    ensures d.syntax != GenericSyntax
    ensures p.syntax == GenericSyntax ==> d.syntax == ""
    ensures p.syntax != GenericSyntax ==> d.syntax == p.syntax
    ensures p.expiration != 0 ==> d.expirationFormatted == Some(p.createdOn + p.expiration)
    ensures p.expiration == 0 ==> d.expirationFormatted == p.expirationFormatted
    ensures d.(syntax := p.syntax, expirationFormatted := p.expirationFormatted) == p
  {
    var shown := if p.expiration != 0 then p.(expirationFormatted := Some(p.createdOn + p.expiration)) else p;
    if shown.syntax == GenericSyntax then shown.(syntax := "") else shown
  }

  /** The clone view: the same paste, its title marked as a copy. */
  function CloneView(p: Paste): (c: Paste)
    ensures |c.title| == |p.title| + |CloneSuffix|
    ensures c.title[..|p.title|] == p.title && c.title[|p.title|..] == CloneSuffix
    ensures c.(title := p.title) == p
  {
    p.(title := p.title + CloneSuffix)
  }

  // ---- properties of the create rules ----

  /** The title is checked first: an over-long title is reported whatever the body is. */
  lemma TitleCheckedFirst(title: string, body: string, syntax: string, mime: string, expire: string,
                          url: string, now: int)
    requires |title| > MaxTitle
    ensures BuildPaste(title, body, syntax, mime, expire, url, now) == Failure(TitleTooLong)
  {
  }

  /** With an acceptable title, an empty body and an over-long body are the two body errors. */
  lemma BodyErrors(title: string, body: string, syntax: string, mime: string, expire: string,
                   url: string, now: int)
    requires |title| <= MaxTitle
    ensures |body| == 0 ==> BuildPaste(title, body, syntax, mime, expire, url, now) == Failure(EmptyBody)
    ensures |body| > MaxBody ==> BuildPaste(title, body, syntax, mime, expire, url, now) == Failure(BodyTooBig)
  {
  }

  /** A built paste is fresh: no clicks, no size, its title and body are the (defaulted) inputs. */
  lemma BuiltPasteIsFresh(title: string, body: string, syntax: string, mime: string, expire: string,
                          url: string, now: int)
    requires BuildPaste(title, body, syntax, mime, expire, url, now).Success?
    ensures var p := BuildPaste(title, body, syntax, mime, expire, url, now).value;
      && p.clicks == 0 && p.size == 0 && p.expirationFormatted == None
      && p.body == body
      && p.title == (if title == "" then DefaultTitle else title)
  {
  }

  /** Syntax and MIME type fall back together to text/plain when either is missing, else pass through. */
  lemma SyntaxFallback(title: string, body: string, syntax: string, mime: string, expire: string,
                       url: string, now: int)
    requires BuildPaste(title, body, syntax, mime, expire, url, now).Success?
    ensures var p := BuildPaste(title, body, syntax, mime, expire, url, now).value;
      if syntax == "" || mime == "" then p.syntax == DefaultSyntax && p.mime == DefaultMime
      else p.syntax == syntax && p.mime == mime
  {
  }

  /**
   * With the syntax looked up from the submitted MIME type (the form handler), a type in the
   * table keeps its tag and a type outside it becomes text/plain, whatever else was sent.
   */
  lemma FormMimeLookup(title: string, body: string, mime: string, expire: string, url: string, now: int)
    requires Validate(title, body).None?
    ensures var p := BuildPaste(title, body, SyntaxFor(mime), mime, expire, url, now).value;
      if mime in MimeTypes then p.syntax == MimeTypes[mime] && p.mime == mime
      else p.syntax == DefaultSyntax && p.mime == DefaultMime
  {
  }

  /** The expiry text is read leniently: a decimal integer is its value, anything else is 0. */
  lemma LenientExpiry(title: string, body: string, syntax: string, mime: string, expire: string,
                      url: string, now: int)
    requires Validate(title, body).None?
    ensures var p := BuildPaste(title, body, syntax, mime, expire, url, now).value;
      && (!Strconv.IsDecimal(expire) ==> p.expiration == 0)
      && (Strconv.IsDecimal(expire) ==> Strconv.ParseInt(expire) == Some(p.expiration))
  {
  }

  /** The expiry "60" means sixty seconds, and formatted seconds read back as themselves. */
  lemma ExpiryText(n: int, title: string, body: string, syntax: string, mime: string, url: string, now: int)
    requires Validate(title, body).None?
    ensures BuildPaste(title, body, syntax, mime, Strconv.FormatInt(n), url, now).value.expiration == n
  {
    Strconv.FormatParseRoundTrip(n);
  }

  /** Cloning a paste whose title has more than 45 bytes gives a title createPaste refuses. */
  lemma CloneOfLongTitleRefused(p: Paste, body: string, syntax: string, mime: string, expire: string,
                                url: string, now: int)
    requires |p.title| > MaxTitle - |CloneSuffix|
    ensures BuildPaste(CloneView(p).title, body, syntax, mime, expire, url, now) == Failure(TitleTooLong)
  {
  }

  /** The document endpoint's fixed inputs: an untitled text/plain paste that never expires. */
  lemma DocumentDefaults(data: string, url: string, now: int)
    requires 1 <= |data| <= MaxBody
    ensures BuildPaste("", data, "", "", "0", url, now)
         == Success(Paste(url, DefaultTitle, data, DefaultSyntax, DefaultMime, 0, 0, 0, now, None))
  {
    assert Strconv.ParseInt("0") == Some(0) by {
      assert Strconv.IsDecimal("0");
      assert Strconv.AllDigits("0");
      assert Strconv.DigitsValue("0") == Strconv.DigitsValue("") * 10 + Strconv.DigitValue('0');
    }
  }
}
