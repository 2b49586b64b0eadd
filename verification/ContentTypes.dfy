/** The content type of a request, read from the text a response would print. */
module ContentTypes {
  import opened Text
  import opened HttpResponse

  function TextNamed(key: string): ContentType {
    if key == "text/plain" then TEXT_PLAIN
    else if key == "text/html" then TEXT_HTML
    else if key == "text/css" then TEXT_CSS
    else if key == "text/javascript" then TEXT_JAVASCRIPT
    else UNKNOWN_TYPE
  }

  function ImageNamed(key: string): ContentType {
    if key == "image/png" then IMAGE_PNG
    else if key == "image/jpeg" then IMAGE_JPEG
    else if key == "image/webp" then IMAGE_WEBP
    else if key == "image/gif" then IMAGE_GIF
    else if key == "image/svg+xml" then IMAGE_SVG
    else UNKNOWN_TYPE
  }

  function ApplicationNamed(key: string): ContentType {
    if key == "application/json" then APPLICATION_JSON
    else if key == "application/x-www-form-urlencoded" then APPLICATION_FORM_URLENCODED
    else if key == "multipart/form-data" then MULTIPART_FORM_DATA
    else if key == "application/xml" then APPLICATION_XML
    else if key == "application/pdf" then APPLICATION_PDF
    else if key == "application/octet-stream" then OCTET_STREAM
    else UNKNOWN_TYPE
  }

  /** The names are compared with the whole text, case included. */
  function Named(key: string): ContentType {
    if "text/" <= key then TextNamed(key)
    else if "image/" <= key then ImageNamed(key)
    else ApplicationNamed(key)
  }

  function StripSpaces(s: string): string {
    if s != "" && s[|s| - 1] == ' ' then StripSpaces(s[..|s| - 1]) else s
  }

  /** The type is what comes before the first semicolon, without spaces at its end. */
  function TypeOf(raw: string): ContentType {
    match FindChar(raw, ';')
    case None => Named(StripSpaces(raw))
    case Some(e) => Named(StripSpaces(raw[..e]))
  }

  method ParseContentType(raw: string) returns (contentType: ContentType)
    ensures contentType == TypeOf(raw)
  {
    hide Named;
    var semicolon := FindChar(raw, ';');
    var key := if semicolon.Some? then raw[..semicolon.value] else raw;
    ghost var name := StripSpaces(key);
    while key != "" && key[|key| - 1] == ' '
      invariant StripSpaces(key) == name
      decreases |key|
    {
      key := key[..|key| - 1];
    }
    contentType := Named(key);
  }

  lemma {:induction false} SpacesStripped(s: string, spaces: string)
    requires forall i :: 0 <= i < |spaces| ==> spaces[i] == ' '
    requires s == "" || s[|s| - 1] != ' '
    ensures StripSpaces(s + spaces) == s
  {
    var all := s + spaces;
    if spaces == "" {
      assert all == s;
    } else {
      assert all[..|all| - 1] == s + spaces[..|spaces| - 1];
      SpacesStripped(s, spaces[..|spaces| - 1]);
    }
  }

  lemma TextNames(t: ContentType)
    requires t in [TEXT_PLAIN, TEXT_HTML, TEXT_CSS, TEXT_JAVASCRIPT]
    ensures Named(ContentTypeText(t)) == t
  {
  }

  lemma ImageNames(t: ContentType)
    requires t in [IMAGE_PNG, IMAGE_JPEG, IMAGE_WEBP, IMAGE_GIF, IMAGE_SVG]
    ensures Named(ContentTypeText(t)) == t
  {
    hide TextNamed, ApplicationNamed;
    assert ContentTypeText(t)[0] == 'i';
  }

  lemma FormNames(t: ContentType)
    requires t in [APPLICATION_FORM_URLENCODED, MULTIPART_FORM_DATA]
    ensures Named(ContentTypeText(t)) == t
  {
    hide TextNamed, ImageNamed;
    assert ContentTypeText(t)[0] in "am";
  }

  lemma DocumentNames(t: ContentType)
    requires t in [APPLICATION_JSON, APPLICATION_XML, APPLICATION_PDF, OCTET_STREAM]
    ensures Named(ContentTypeText(t)) == t
  {
    hide TextNamed, ImageNamed;
    assert ContentTypeText(t)[0] == 'a';
  }

  lemma UnknownIsBytes()
    ensures Named(ContentTypeText(UNKNOWN_TYPE)) == OCTET_STREAM
  {
    hide TextNamed, ImageNamed;
    assert ContentTypeText(UNKNOWN_TYPE)[0] == 'a';
  }

  /**
   A content type printed by a response is read back by a request, whatever parameters follow it; an unknown one is
   printed as a stream of bytes.
   */
  lemma TypesReadBack(t: ContentType, spaces: string, parameters: string)
    requires forall i :: 0 <= i < |spaces| ==> spaces[i] == ' '
    ensures var read := if t == UNKNOWN_TYPE then OCTET_STREAM else t;
            && TypeOf(ContentTypeText(t) + spaces) == read
            && TypeOf(ContentTypeText(t) + spaces + ";" + parameters) == read
  {
    hide ContentTypeText, Named, StripSpaces;
    var key := ContentTypeText(t) + spaces;
    TypeIsVisible(t);
    SpacesStripped(ContentTypeText(t), spaces);
    assert FindChar(key, ';').None?;
    var raw := key + ";" + parameters;
    FirstChar(raw, ';', |key|);
    assert raw[..|key|] == key;
    match t
    case TEXT_PLAIN | TEXT_HTML | TEXT_CSS | TEXT_JAVASCRIPT => TextNames(t);
    case IMAGE_JPEG | IMAGE_PNG | IMAGE_GIF | IMAGE_WEBP | IMAGE_SVG => ImageNames(t);
    case APPLICATION_FORM_URLENCODED | MULTIPART_FORM_DATA => FormNames(t);
    case UNKNOWN_TYPE => UnknownIsBytes();
    case _ => DocumentNames(t);
  }
}
