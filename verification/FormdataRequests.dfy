/** A whole request: the Content-Type header gives the boundary, and the chunks of the body the parameters. */
module FormdataRequests {
  import opened Text
  import opened FormdataMachine
  import opened FormdataParser
  import opened FormdataRoundTrip

  const FORM_TYPE := "multipart/form-data"

  ghost predicate GoodBoundary(b: string) {
    b != "" && forall i :: 0 <= i < |b| ==> b[i] !in {' ', ';', CR, LF} && IsAscii(b[i])
  }

  lemma FindParameter(b: string)
    ensures Find("boundary=", "; boundary=" + b) == Some(2)
  {
    var t := "; boundary=" + b;
    assert t[2..11] == "boundary=";
    assert OccursAt("boundary=", t, 2);
    StartsDifferently("boundary=", t, 0);
    StartsDifferently("boundary=", t, 1);
  }

  lemma BoundaryAt(t: string, semicolon: nat, i: nat, b: string)
    requires CSpan(t, {';'}) == semicolon < |t| && HasPrefixNoCase("multipart/form-data", t)
    requires Find("boundary=", t[semicolon..]) == Some(i) && semicolon + i + 9 <= |t|
    requires t[semicolon + i + 9..] == b != "" && CSpan(b, {' ', ';', LF, CR}) == |b|
    ensures BoundaryOf(t) == Ok(b)
  {
    hide CSpan, Find, HasPrefixNoCase;
    assert b[..|b|] == b;
  }

  lemma BoundaryReadsBack(b: string)
    requires GoodBoundary(b)
    ensures BoundaryOf(FORM_TYPE + ("; boundary=" + b)) == Ok(b)
  {
    var t := FORM_TYPE + ("; boundary=" + b);
    SpanOver(FORM_TYPE, "; boundary=" + b, {';'});
    assert t[19..] == "; boundary=" + b;
    FindParameter(b);
    assert t[30..] == b;
    SpanOver(b, "", {' ', ';', LF, CR});
    assert b + "" == b;
    assert HasPrefixNoCase("multipart/form-data", t) by {
      assert forall i :: 0 <= i < 19 ==> t[i] == FORM_TYPE[i];
    }
    BoundaryAt(t, 19, 2, b);
  }

  /**
   The law of the form parser: a client's form, sent with its boundary in any chunks, with CR LF or LF
   line ends, is stored as the first value of each name, cut to the 128 KiB buffer.
   */
  lemma ClientFormIsStored(b: string, eol: string, pre: string, parts: seq<Part>, rest: string,
                                              chunks: seq<string>)
    requires GoodBoundary(b) && (eol == CRLF || eol == [LF])
    requires var cfg := ConfigOf(b, MAX_HEADER, BUFFER_SIZE);
             && cfg.Valid() && GoodPreamble(cfg, pre) && GoodParts(cfg, eol, 0, parts)
             && Flatten(chunks) == pre + (FormText(cfg, eol, parts) + rest)
    ensures BoundaryOf(FORM_TYPE + ("; boundary=" + b)) == Ok(b)
    ensures var cfg := ConfigOf(b, MAX_HEADER, BUFFER_SIZE);
            && Valid(cfg, Init(map[]))
            && Final(cfg, Init(map[]), Flatten(chunks)).params == Stored(cfg, map[], parts)
  {
    hide Run, Feed, FormText, Stored, GoodParts, BoundaryOf;
    var cfg := ConfigOf(b, MAX_HEADER, BUFFER_SIZE);
    BoundaryReadsBack(b);
    assert cfg.Ascii();
    ChunkedFormReadBack(cfg, eol, map[], pre, parts, rest, chunks);
    ChunkIndependence(cfg, Init(map[]), chunks);
  }

  lemma SignIrrelevant(sign: string, v: string)
    requires sign in {"", "+", "-"} && (sign == "" && v != "" ==> v[0] !in {'+', '-'})
    ensures SignedOf(sign + v) == 0 <==> LeadingNat(v) == 0
  {
    if sign == "" {
      assert sign + v == v;
    } else {
      assert (sign + v)[1..] == v;
    }
  }

  lemma {:induction false} WhiteOver(white: string, u: string)
    requires (forall i :: 0 <= i < |white| ==> white[i] in WHITE) && (u != "" ==> u[0] !in WHITE)
    ensures WhiteSpan(white + u) == |white|
    decreases |white|
  {
    if white == "" {
      assert white + u == u;
    } else {
      assert (white + u)[1..] == white[1..] + u;
      WhiteOver(white[1..], u);
    }
  }

  lemma {:induction false} ZeroIff(ds: string)
    requires forall i :: 0 <= i < |ds| ==> '0' <= ds[i] <= '9'
    ensures NatValue(ds) >= 0
    ensures NatValue(ds) == 0 <==> forall i :: 0 <= i < |ds| ==> ds[i] == '0'
    decreases |ds|
  {
    if ds != "" {
      var front := ds[..|ds| - 1];
      ZeroIff(front);
      assert (forall i :: 0 <= i < |ds| ==> ds[i] == '0') <==>
             (forall i :: 0 <= i < |front| ==> front[i] == '0') && ds[|ds| - 1] == '0';
    }
  }

  /** A content length is refused exactly when the digits it starts with are zeros or missing. */
  lemma ContentLengthRefusedIff(white: string, sign: string, digits: string, rest: string)
    requires forall i :: 0 <= i < |white| ==> white[i] in {' ', '\t', '\n', '\U{0B}', '\U{0C}', '\r'}
    requires sign in {"", "+", "-"}
    requires (forall i :: 0 <= i < |digits| ==> '0' <= digits[i] <= '9')
    requires rest != "" ==> !('0' <= rest[0] <= '9')
    requires sign == "" && digits == "" && rest != "" ==>
               rest[0] !in {' ', '\t', '\n', '\U{0B}', '\U{0C}', '\r', '+', '-'}
    ensures LongOf(white + (sign + (digits + rest))) == 0 <==> forall i :: 0 <= i < |digits| ==> digits[i] == '0'
  {
    var v := digits + rest;
    WhiteOver(white, sign + v);
    assert (white + (sign + v))[|white|..] == sign + v;
    DigitsOver(digits, rest);
    assert v[..|digits|] == digits;
    SignIrrelevant(sign, v);
    ZeroIff(digits);
  }

  lemma TypeSuffix(contentType: string)
    requires HasPrefixNoCase("multipart/form-data", contentType)
    ensures var t := contentType[8..];
            var n := CSpan(t, {' ', ';', LF, CR});
            0 < n && t[..n] <= t && Lower(t[..n][0]) == 't'
  {
    assert Lower("multipart/form-data"[8]) == 't' == Lower(contentType[8]);
    assert contentType[8..][0] == contentType[8];
  }

  /**
   A form type without "boundary=" goes unreported, because the search result is never compared with
   npos: the boundary is read from the header's own text, from the last letter of "multipart" on.
   */
  lemma MissingBoundaryIsNotReported(contentType: string)
    requires HasPrefixNoCase("multipart/form-data", contentType)
    requires ';' in contentType && Find("boundary=", contentType[CSpan(contentType, {';'})..]).None?
    ensures var r := BoundaryOf(contentType);
            r.Ok? && r.value != "" && r.value <= contentType[8..] && Lower(r.value[0]) == 't'
  {
    var k := CSpan(contentType, {';'});
    assert k < |contentType|;
    TypeSuffix(contentType);
  }
}
