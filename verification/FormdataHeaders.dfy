/** The header lines of a part of a form. */
module FormdataHeaders {
  import opened Text

  datatype Error =
    | NoBoundary | NotMultipart | EmptyBoundary
    | NotFormData | MalformedFieldName | EmptyContentType | HeaderTooLong | MalformedBody

  datatype Header = FieldName(name: string) | ContentType(contentType: string) | Other

  /** The text of a Content-Disposition, after the spaces. */
  function ParseDisposition(p: string): Result<Header, Error> {
    if !HasPrefixNoCase("form-data", p) && !HasPrefixNoCase("attachment", p) then Err(NotFormData)
    else
      match Find("name=\"", p)
      case None => Ok(Other)
      case Some(i) =>
        var f := p[i + 6..];
        var n := CSpan(f, {'"'});
        if n == |f| then Err(MalformedFieldName) else Ok(FieldName(f[..n]))
  }

  /** One header line, without its line end. Lookups stop at an embedded NUL. */
  function ParsePartHeader(h: string): Result<Header, Error> {
    var z := CString(h);
    if HasPrefixNoCase("Content-Disposition:", z) then ParseDisposition(z[20..][SpaceSpan(z[20..])..])
    else if HasPrefixNoCase("Content-Type:", z) then
      var ct := h[13 + SpaceSpan(z[13..])..];
      if ct == "" then Err(EmptyContentType) else Ok(ContentType(ct))
    else Ok(Other)
  }
}
