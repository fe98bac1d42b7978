/** What becomes of every header line of a part, told from its shape. */
module FormdataHeaderLines {
  import opened Text
  import opened FormdataHeaders
  import opened FormdataMachine
  import opened FormdataReference
  import opened FormdataRoundTrip

  lemma DispositionPrefix(t: string)
    ensures HasPrefixNoCase("Content-Disposition:", t) <==> 20 <= |t| && SpelledAs(t[..20], "content-disposition:")
  {
    PrefixIsSpelled("Content-Disposition:", "content-disposition:", t);
  }

  lemma TypePrefix(t: string)
    ensures HasPrefixNoCase("Content-Type:", t) <==> 13 <= |t| && SpelledAs(t[..13], "content-type:")
  {
    PrefixIsSpelled("Content-Type:", "content-type:", t);
  }

  lemma FormDataPrefix(t: string)
    ensures HasPrefixNoCase("form-data", t) <==> 9 <= |t| && SpelledAs(t[..9], "form-data")
  {
    PrefixIsSpelled("form-data", "form-data", t);
  }

  lemma AttachmentPrefix(t: string)
    ensures HasPrefixNoCase("attachment", t) <==> 10 <= |t| && SpelledAs(t[..10], "attachment")
  {
    PrefixIsSpelled("attachment", "attachment", t);
  }

  /** What C sees of a line is the line up to a NUL. */
  lemma {:induction false} CStringFront(a: string, b: string)
    requires NUL !in a
    ensures CString(a + b) == a + CString(b)
  {
    var n := CSpan(b, {NUL});
    Regroup(a, b[..n], b[n..]);
    assert b == b[..n] + b[n..];
    SpanOver(a + b[..n], b[n..], {NUL});
    assert (a + b)[..|a| + n] == a + b[..n];
  }

  lemma NoNulInSpelled(d: string, lower: string)
    requires SpelledAs(d, lower) && NUL !in lower
    ensures NUL !in d
  {
  }

  lemma {:induction false} TypeIsNoDisposition(z: string, d: string)
    requires SpelledAs(d, "content-type:") && 13 <= |z| && z[..13] == d
    ensures !HasPrefixNoCase("Content-Disposition:", z)
  {
    DispositionPrefix(z);
    assert z[..13][8] == z[8] == d[8];
    assert "content-type:"[8] == 't' && "content-disposition:"[8] == 'd';
    assert 20 <= |z| ==> z[..20][8] == z[8];
  }

  /** A Content-Type line, in any case, is accepted exactly when something but spaces follows the colon. */
  lemma {:induction false} TypeLine(h: string, d: string, spaces: string, rest: string)
    requires h == d + (spaces + rest) && SpelledAs(d, "content-type:")
    requires (forall i :: 0 <= i < |spaces| ==> spaces[i] == ' ') && (rest != "" ==> rest[0] != ' ')
    ensures ParsePartHeader(h) == if rest == "" then Err(EmptyContentType) else Ok(ContentType(rest))
  {
    var z, r := CString(h), CString(rest);
    NoNulInSpelled(d, "content-type:");
    Regroup(d, spaces, rest);
    CStringFront(d + spaces, rest);
    Regroup(d, spaces, r);
    assert z[..13] == d && z[13..] == spaces + r;
    SpacesOver(spaces, r);
    TypePrefix(z);
    TypeIsNoDisposition(z, d);
    assert h[13 + |spaces|..] == rest;
  }

  /** A line with neither name before its colon is accepted and says nothing. */
  lemma {:induction false} OtherLine(h: string)
    requires !(20 <= |h| && SpelledAs(h[..20], "content-disposition:"))
    requires !(13 <= |h| && SpelledAs(h[..13], "content-type:"))
    ensures ParsePartHeader(h) == Ok(Other)
  {
    var z := CString(h);
    DispositionPrefix(z);
    TypePrefix(z);
    assert 20 <= |z| ==> z[..20] == h[..20];
    assert 13 <= |z| ==> z[..13] == h[..13];
  }

  /** A disposition that the parser takes: "form-data" or "attachment", in any case. */
  predicate IsForm(p: string) {
    (9 <= |p| && SpelledAs(p[..9], "form-data")) || (10 <= |p| && SpelledAs(p[..10], "attachment"))
  }

  /** The first place at which `pat` occurs. */
  ghost predicate FirstAt(pat: string, t: string, i: nat) {
    OccursAt(pat, t, i) && forall j: nat :: j < i ==> !OccursAt(pat, t, j)
  }

  lemma {:induction false} QuoteIn(f: string)
    ensures CSpan(f, {'"'}) == |f| <==> '"' !in f
  {
  }

  lemma {:induction false} DispositionOutcome(p: string)
    ensures ParseDisposition(p) == Err(NotFormData) <==> !IsForm(p)
    ensures ParseDisposition(p) == Ok(Other) <==> IsForm(p) && !Occurs("name=\"", p)
    ensures ParseDisposition(p) == Err(MalformedFieldName) <==>
            IsForm(p) && exists i: nat :: FirstAt("name=\"", p, i) && '"' !in p[i + 6..]
    ensures ParseDisposition(p).Ok? && ParseDisposition(p).value.FieldName? <==>
            IsForm(p) && exists i: nat :: FirstAt("name=\"", p, i) && '"' in p[i + 6..]
  {
    FormDataPrefix(p);
    AttachmentPrefix(p);
    var r := Find("name=\"", p);
    if r.Some? {
      assert FirstAt("name=\"", p, r.value);
      QuoteIn(p[r.value + 6..]);
    }
  }

  /** A Content-Disposition line: refused for another disposition, and for a name without its closing quote. */
  lemma {:induction false} DispositionLine(h: string, d: string, spaces: string, p: string)
    requires h == d + (spaces + p) && NUL !in h && SpelledAs(d, "content-disposition:")
    requires (forall i :: 0 <= i < |spaces| ==> spaces[i] == ' ') && (p != "" ==> p[0] != ' ')
    ensures ParsePartHeader(h) == Err(NotFormData) <==> !IsForm(p)
    ensures ParsePartHeader(h) == Ok(Other) <==> IsForm(p) && !Occurs("name=\"", p)
    ensures ParsePartHeader(h) == Err(MalformedFieldName) <==>
            IsForm(p) && exists i: nat :: FirstAt("name=\"", p, i) && '"' !in p[i + 6..]
    ensures ParsePartHeader(h).Ok? && ParsePartHeader(h).value.FieldName? <==>
            IsForm(p) && exists i: nat :: FirstAt("name=\"", p, i) && '"' in p[i + 6..]
  {
    DispositionPrefix(d);
    assert d[..20] == d;
    DispositionReached(h, d, spaces, p);
    DispositionOutcome(p);
  }

  // ----- what a refused line does

  /** A header line that is too long or that the parser refuses ends the form where it stands. */
  lemma RefusedLineEnds(cfg: Config, eol: string, b: nat, params: map<string, string>, name: string, h: string,
                        t: string)
    requires cfg.Valid() && (eol == CRLF || eol == [LF])
    requires h != "" && CR !in h && LF !in h && (|h| >= cfg.maxHeader || cfg.parseHeader(h).Err?)
    ensures PartHeaders(cfg, b, params, name, h + (eol + t)) == Outcome(params, true)
  {
    LineThen(eol, h, t);
    DropEol(eol, h);
  }

  /** The same after lines that it accepts: the part, and all that follow, are lost. */
  lemma {:induction false} RefusedPartEnds(cfg: Config, eol: string, b: nat, params: map<string, string>, name: string,
                                           good: seq<string>, bad: string, t: string)
    requires cfg.Valid() && (eol == CRLF || eol == [LF]) && forall h :: h in good ==> GoodHeader(cfg, h)
    requires bad != "" && CR !in bad && LF !in bad && (|bad| >= cfg.maxHeader || cfg.parseHeader(bad).Err?)
    ensures PartHeaders(cfg, b, params, name, HeaderLines(eol, good) + (bad + (eol + t))) == Outcome(params, true)
    decreases |good|
  {
    if good == [] {
      assert "" + (bad + (eol + t)) == bad + (eol + t);
      RefusedLineEnds(cfg, eol, b, params, name, bad, t);
    } else {
      var h, u := good[0], HeaderLines(eol, good[1..]) + (bad + (eol + t));
      assert h in good;
      assert HeaderLines(eol, good) + (bad + (eol + t)) == h + (eol + u);
      ReadLine(cfg, eol, b, params, name, h, u);
      var r := cfg.parseHeader(h).value;
      RefusedPartEnds(cfg, eol, b, params, if r.FieldName? then r.name else name, good[1..], bad, t);
    }
  }

  /** After a delimiter, anything without a dash up to the line feed is skipped; a dash first ends the form. */
  lemma DelimiterLineEnds(cfg: Config, b: nat, params: map<string, string>, pad: string, t: string)
    requires cfg.Valid() && LF !in pad && '-' !in pad
    ensures AfterDelimiter(cfg, b, params, pad + ([LF] + t)) == PartHeaders(cfg, b, params, "", t)
    ensures AfterDelimiter(cfg, b, params, pad + (['-'] + t)) == Outcome(params, true)
    ensures AfterDelimiter(cfg, b, params, pad) == Outcome(params, false)
  {
    SpanOver(pad, [LF] + t, {LF, '-'});
    SpanOver(pad, ['-'] + t, {LF, '-'});
    assert (pad + ([LF] + t))[|pad| + 1..] == t;
    assert CSpan(pad, {LF, '-'}) == |pad|;
  }
}
