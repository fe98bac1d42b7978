/** A form written by a client is read back: the parser undoes the multipart/form-data encoding. */
module FormdataRoundTrip {
  import opened Text
  import opened FormdataHeaders
  import opened FormdataMachine
  import opened FormdataData
  import opened FormdataReference
  import opened FormdataRefinement

  /** One part of a form: its header lines, among them the Content-Disposition with the field's name. */
  datatype Part = Part(headers: seq<string>, value: string)

  const CRLF := [CR, LF]

  function NameField(name: string): string {
    "name=\"" + (name + "\"")
  }

  function FormData(name: string): string {
    "form-data; " + NameField(name)
  }

  function HeaderText(name: string): string {
    "Content-Disposition: " + FormData(name)
  }

  function HeaderLines(eol: string, headers: seq<string>): string {
    if headers == [] then "" else headers[0] + (eol + HeaderLines(eol, headers[1..]))
  }

  /** The name that header lines leave a part with: the last one given, or else the one it had. */
  function FieldOf(cfg: Config, name: string, headers: seq<string>): string
    decreases |headers|
  {
    if headers == [] then name
    else
      var h := cfg.parseHeader(headers[0]);
      FieldOf(cfg, if h.Ok? && h.value.FieldName? then h.value.name else name, headers[1..])
  }

  function ValueText(cfg: Config, eol: string, parts: seq<Part>): string
    requires cfg.Valid() && parts != []
    decreases |parts|, 0
  {
    parts[0].value + eol + (cfg.Line() + AfterLineText(cfg, eol, parts[1..]))
  }

  /** A form from the point where its first delimiter line has been written. */
  function AfterLineText(cfg: Config, eol: string, parts: seq<Part>): string
    requires cfg.Valid()
    decreases |parts|
  {
    if parts == [] then "--"
    else eol + (HeaderLines(eol, parts[0].headers) + (eol + ValueText(cfg, eol, parts)))
  }

  function FormText(cfg: Config, eol: string, parts: seq<Part>): string
    requires cfg.Valid()
  {
    cfg.Line() + AfterLineText(cfg, eol, parts)
  }

  ghost predicate GoodName(cfg: Config, name: string) {
    && cfg.parseHeader == ParsePartHeader
    && (forall i :: 0 <= i < |name| ==> name[i] !in {'"', CR, LF, NUL})
    && |HeaderText(name)| < cfg.maxHeader
  }

  /** A header line that the parser accepts. */
  ghost predicate GoodHeader(cfg: Config, h: string) {
    h != "" && CR !in h && LF !in h && |h| < cfg.maxHeader && cfg.parseHeader(h).Ok?
  }

  /** The value, written before `eol` and a delimiter, comes back unchanged for a part entered at `b`. */
  ghost predicate Kept(cfg: Config, eol: string, b: nat, v: string)
    requires cfg.Valid()
  {
    && !Occurs(cfg.LfLine(), v)
    && if eol == CRLF then b == 0 || LF in v else !StripsCR(b, v)
  }

  /** With CR LF line ends every delimiter matches from its CR; with LF alone, none after the first. */
  ghost predicate GoodParts(cfg: Config, eol: string, b: nat, parts: seq<Part>)
    requires cfg.Valid()
    decreases |parts|
  {
    parts != [] ==>
      && (forall h :: h in parts[0].headers ==> GoodHeader(cfg, h)) && Kept(cfg, eol, b, parts[0].value)
      && GoodParts(cfg, eol, if eol == CRLF then 0 else 1, parts[1..])
  }

  /** What a request should hold: the first value given for each name, cut to the buffer size. */
  function Stored(cfg: Config, params: map<string, string>, parts: seq<Part>): map<string, string>
    decreases |parts|
  {
    if parts == [] then params
    else
      var name := FieldOf(cfg, "", parts[0].headers);
      Stored(cfg, InsertFirst(params, name, Take(parts[0].value, cfg.bufSize)), parts[1..])
  }

  lemma StartsDifferently(pat: string, t: string, j: nat)
    requires pat != "" && j < |t| && t[j] != pat[0]
    ensures !OccursAt(pat, t, j)
  {
    assert j + |pat| <= |t| ==> t[j..j + |pat|][0] == t[j];
  }

  lemma FindNameField(name: string)
    ensures Find("name=\"", FormData(name)) == Some(11)
  {
    var p := FormData(name);
    assert p[11..17] == "name=\"";
    assert OccursAt("name=\"", p, 11);
    forall j: nat | j < 11 ensures !OccursAt("name=\"", p, j) {
      assert "form-data; "[j] != 'n';
      assert p[j] != 'n';
      StartsDifferently("name=\"", p, j);
    }
  }

  /** Free of line ends and of NUL, as a header line is. */
  predicate Plain(s: string) {
    CR !in s && LF !in s && NUL !in s
  }

  lemma PlainJoin(a: string, b: string)
    requires Plain(a) && Plain(b)
    ensures Plain(a + b)
  {
  }

  lemma HeaderIsOneLine(cfg: Config, name: string)
    requires GoodName(cfg, name)
    ensures Plain(HeaderText(name))
  {
    assert Plain("Content-Disposition: ") && Plain("form-data; ") && Plain("name=\"") && Plain("\"") && Plain(name);
    PlainJoin(name, "\"");
    PlainJoin("name=\"", name + "\"");
    PlainJoin("form-data; ", NameField(name));
    PlainJoin("Content-Disposition: ", FormData(name));
  }

  lemma WholeCString(h: string)
    requires NUL !in h
    ensures CString(h) == h
  {
    assert CSpan(h, {NUL}) == |h|;
  }

  lemma {:induction false} SpacesOver(spaces: string, p: string)
    requires (forall j :: 0 <= j < |spaces| ==> spaces[j] == ' ') && (p != "" ==> p[0] != ' ')
    ensures SpaceSpan(spaces + p) == |spaces|
    decreases |spaces|
  {
    if spaces == "" {
      assert spaces + p == p;
    } else {
      assert (spaces + p)[1..] == spaces[1..] + p;
      SpacesOver(spaces[1..], p);
    }
  }

  lemma DispositionReached(h: string, d: string, spaces: string, p: string)
    requires h == d + (spaces + p) && NUL !in h
    requires |d| == 20 && HasPrefixNoCase("Content-Disposition:", d)
    requires (forall j :: 0 <= j < |spaces| ==> spaces[j] == ' ') && (p != "" ==> p[0] != ' ')
    ensures ParsePartHeader(h) == ParseDisposition(p)
  {
    WholeCString(h);
    assert h[..20] == d && h[20..] == spaces + p;
    SpacesOver(spaces, p);
    assert (spaces + p)[|spaces|..] == p;
    assert HasPrefixNoCase("Content-Disposition:", h) by {
      assert forall j :: 0 <= j < 20 ==> h[j] == d[j];
    }
  }

  lemma QuotedSpan(f: string, name: string, rest: string)
    requires f == name + ("\"" + rest) && '"' !in name
    ensures CSpan(f, {'"'}) == |name| < |f| && f[..|name|] == name
  {
    SpanOver(name, "\"" + rest, {'"'});
  }

  lemma DispositionNames(p: string, i: nat, name: string, rest: string)
    requires HasPrefixNoCase("form-data", p) || HasPrefixNoCase("attachment", p)
    requires Find("name=\"", p) == Some(i) && p[i + 6..] == name + ("\"" + rest) && '"' !in name
    ensures ParseDisposition(p) == Ok(FieldName(name))
  {
    QuotedSpan(p[i + 6..], name, rest);
  }

  /**
   A form-data or attachment line, in any case and spacing, gives the quoted text after the first
   "name=" in it, whatever stands before and after.
   */
  lemma FirstNameIsTaken(h: string, d: string, spaces: string, p: string, i: nat, name: string, rest: string)
    requires h == d + (spaces + p) && NUL !in h
    requires |d| == 20 && HasPrefixNoCase("Content-Disposition:", d)
    requires (forall j :: 0 <= j < |spaces| ==> spaces[j] == ' ') && (p != "" ==> p[0] != ' ')
    requires HasPrefixNoCase("form-data", p) || HasPrefixNoCase("attachment", p)
    requires Find("name=\"", p) == Some(i) && p[i + 6..] == name + ("\"" + rest) && '"' !in name
    ensures ParsePartHeader(h) == Ok(FieldName(name))
  {
    DispositionReached(h, d, spaces, p);
    DispositionNames(p, i, name, rest);
  }

  lemma HeaderParses(cfg: Config, name: string)
    requires GoodName(cfg, name)
    ensures ParsePartHeader(HeaderText(name)) == Ok(FieldName(name))
  {
    var h, p := HeaderText(name), FormData(name);
    HeaderIsOneLine(cfg, name);
    assert h == "Content-Disposition:" + (" " + p);
    FindNameField(name);
    assert p[17..] == name + ("\"" + "");
    FirstNameIsTaken(h, "Content-Disposition:", " ", p, 11, name, "");
  }

  lemma FieldStarts(name: string, p: string, k: nat)
    requires OccursAt(NameField(name), p, k)
    ensures OccursAt("name=\"", p, k)
  {
    assert NameField(name)[..6] == "name=\"";
    assert p[k..k + 6] == p[k..k + |NameField(name)|][..6];
  }

  lemma {:induction false} QuotedName(p: string, i: nat, name: string)
    requires OccursAt(NameField(name), p, i) && '"' !in name && Find("name=\"", p) == Some(i)
    requires HasPrefixNoCase("form-data", p) || HasPrefixNoCase("attachment", p)
    ensures ParseDisposition(p) == Ok(FieldName(name))
  {
    var n := |name|;
    assert p[i..i + n + 7][6..] == NameField(name)[6..] == name + "\"";
    assert p[i + 6..] == p[i + 6..i + n + 7] + p[i + n + 7..];
    assert p[i + 6..] == name + ("\"" + p[i + n + 7..]);
    DispositionNames(p, i, name, p[i + n + 7..]);
  }

  lemma QuotedAt(p: string, i: nat, n: nat)
    requires OccursAt("name=\"", p, i) && i + 6 + n < |p| && p[i + 6 + n] == '"'
    ensures OccursAt(NameField(p[i + 6..][..n]), p, i)
  {
    var name := p[i + 6..][..n];
    assert p[i..i + 6] == "name=\"";
    assert p[i..i + 6 + n + 1] == p[i..i + 6] + p[i + 6..i + 6 + n] + [p[i + 6 + n]];
  }

  /**
   A field name in quotes after "name=", at any place of such a line, is read back exactly when that is the
   first "name=" with a quote after it, or the same text is quoted there too.
   */
  lemma {:induction false} NameReadBackIff(h: string, d: string, spaces: string, p: string, k: nat, name: string)
    requires h == d + (spaces + p) && NUL !in h
    requires |d| == 20 && HasPrefixNoCase("Content-Disposition:", d)
    requires (forall j :: 0 <= j < |spaces| ==> spaces[j] == ' ') && (p != "" ==> p[0] != ' ')
    requires HasPrefixNoCase("form-data", p) || HasPrefixNoCase("attachment", p)
    requires OccursAt(NameField(name), p, k) && '"' !in name
    ensures ParsePartHeader(h) == Ok(FieldName(name)) <==>
            var i := Find("name=\"", p);
            i == Some(k) || (i.Some? && OccursAt(NameField(name), p, i.value))
  {
    FieldStarts(name, p, k);
    DispositionReached(h, d, spaces, p);
    var i := Find("name=\"", p).value;
    if OccursAt(NameField(name), p, i) {
      QuotedName(p, i, name);
    } else if ParseDisposition(p) == Ok(FieldName(name)) {
      QuotedAt(p, i, CSpan(p[i + 6..], {'"'}));
    }
  }

  lemma {:induction false} OthersNameNothing(cfg: Config, name: string, others: seq<string>)
    requires forall h :: h in others ==> GoodHeader(cfg, h) && !cfg.parseHeader(h).value.FieldName?
    ensures FieldOf(cfg, name, others) == name
    decreases |others|
  {
    if others != [] {
      assert others[0] in others;
      OthersNameNothing(cfg, name, others[1..]);
    }
  }

  /** The header lines of a client's part, with others after the Content-Disposition, leave it with its name. */
  lemma ClientHeaders(cfg: Config, name: string, others: seq<string>)
    requires GoodName(cfg, name)
    requires forall h :: h in others ==> GoodHeader(cfg, h) && !cfg.parseHeader(h).value.FieldName?
    ensures forall h :: h in [HeaderText(name)] + others ==> GoodHeader(cfg, h)
    ensures FieldOf(cfg, "", [HeaderText(name)] + others) == name
  {
    HeaderIsOneLine(cfg, name);
    HeaderParses(cfg, name);
    assert HeaderText(name) != "";
    OthersNameNothing(cfg, name, others);
    assert ([HeaderText(name)] + others)[1..] == others;
  }

  function FileData(file: string, rest: string): string {
    "form-data; file" + ("name=\"" + (file + ("\"" + rest)))
  }

  lemma FileDataShape(file: string, rest: string)
    requires NUL !in file && NUL !in rest
    ensures var p := FileData(file, rest);
            && NUL !in "Content-Disposition: " + p
            && "Content-Disposition: " + p == "Content-Disposition:" + (" " + p)
            && HasPrefixNoCase("form-data", p) && p[0] != ' ' && p[21..] == file + ("\"" + rest)
  {
    var p := FileData(file, rest);
    var q := file + ("\"" + rest);
    assert NUL !in q;
    assert NUL !in "form-data; file" && NUL !in "name=\"";
    assert NUL !in "Content-Disposition: ";
    assert NUL !in p;
  }

  lemma FindFileName(file: string, rest: string)
    ensures Find("name=\"", FileData(file, rest)) == Some(15)
  {
    var p := FileData(file, rest);
    assert p[15..21] == "name=\"";
    assert OccursAt("name=\"", p, 15);
    forall j: nat | j < 15 ensures !OccursAt("name=\"", p, j) {
      assert "form-data; file"[j] != 'n';
      assert p[j] != 'n';
      StartsDifferently("name=\"", p, j);
    }
  }

  /** So a file name that comes before the field name is taken for it: "filename=" ends in "name=". */
  lemma FileNameIsTaken(file: string, rest: string)
    requires '"' !in file && NUL !in file && NUL !in rest
    ensures ParsePartHeader("Content-Disposition: " + FileData(file, rest)) == Ok(FieldName(file))
  {
    var p := FileData(file, rest);
    FileDataShape(file, rest);
    FindFileName(file, rest);
    var d := "Content-Disposition:";
    FirstNameIsTaken("Content-Disposition: " + p, d, " ", p, 15, file, rest);
  }

  /** A line with a file name and then a field name gives the field name exactly when the two are the same. */
  lemma FileNameFirstIff(file: string, name: string)
    requires '"' !in file && NUL !in file && NUL !in name
    ensures ParsePartHeader("Content-Disposition: " + FileData(file, "; " + NameField(name))) == Ok(FieldName(name))
            <==> file == name
  {
    var rest := "; " + NameField(name);
    assert Plain("; ") && NUL !in rest;
    FileNameIsTaken(file, rest);
  }

  lemma DispositionIsQuoted(p: string)
    requires ParseDisposition(p).Ok? && ParseDisposition(p).value.FieldName?
    ensures var name := ParseDisposition(p).value.name;
            '"' !in name && Occurs(NameField(name), p)
  {
    var i := Find("name=\"", p).value;
    QuotedAt(p, i, CSpan(p[i + 6..], {'"'}));
  }

  lemma OccursLater(t: string, h: string, k: nat, a: nat, i: nat)
    requires a <= k <= |h| && OccursAt(t, h[..k][a..], i)
    ensures OccursAt(t, h, a + i)
  {
    OccursInTail(t, h[..k], a, i);
    assert h == h[..k] + h[k..];
    OccursBefore(t, h[..k], h[k..], a + i);
  }

  /** Whatever the header line, a field name read from it stands there in quotes, after "name=". */
  lemma FieldNameIsQuoted(h: string)
    requires ParsePartHeader(h).Ok? && ParsePartHeader(h).value.FieldName?
    ensures var name := ParsePartHeader(h).value.name;
            '"' !in name && Occurs(NameField(name), h)
  {
    var z := CString(h);
    var a := 20 + SpaceSpan(z[20..]);
    assert z[20..][SpaceSpan(z[20..])..] == z[a..];
    var name := ParsePartHeader(h).value.name;
    DispositionIsQuoted(z[a..]);
    var i: nat :| OccursAt(NameField(name), z[a..], i);
    OccursLater(NameField(name), h, |z|, a, i);
  }

  /** A delimiter has a line feed only at its start and no carriage return. */
  lemma LineEndInside(l: string, t: string, j: nat, k: nat)
    requires j <= k < j + |l| && k < |t|
    requires l[0] != CR && forall i :: 1 <= i < |l| ==> l[i] != CR && l[i] != LF
    requires t[k] == CR || (t[k] == LF && j < k)
    ensures !OccursAt(l, t, j)
  {
    assert j + |l| <= |t| ==> t[j..j + |l|][k - j] == t[k];
  }

  lemma NoEarlierDelimiter(cfg: Config, v: string, w: string, j: nat)
    requires cfg.Valid() && !Occurs(cfg.LfLine(), v) && w != ""
    requires w[0] == LF || w[0] == CR
    requires j < |v| || (j == |v| && w[0] == CR)
    ensures !OccursAt(cfg.LfLine(), v + w, j)
  {
    var l := cfg.LfLine();
    OccursBefore(l, v, w, j);
    if |v| < j + |l| {
      LineEndInside(l, v + w, j, |v|);
    }
  }

  lemma FirstIn(cfg: Config, v: string, w: string, t: string, i: nat)
    requires cfg.Valid() && !Occurs(cfg.LfLine(), v) && t == v + w && OccursAt(cfg.LfLine(), t, i)
    requires w != "" && (w[0] == LF || w[0] == CR)
    requires i <= |v| || (i == |v| + 1 && w[0] == CR)
    ensures Find(cfg.LfLine(), t) == Some(i)
  {
    forall j: nat | j < i ensures !OccursAt(cfg.LfLine(), t, j) {
      NoEarlierDelimiter(cfg, v, w, j);
    }
  }

  lemma DelimiterAt(cfg: Config, eol: string, v: string, rest: string)
    requires cfg.Valid() && (eol == CRLF || eol == [LF])
    ensures var w, t := eol + (cfg.Line() + rest), v + eol + (cfg.Line() + rest);
            t == v + w && w != "" && w[0] == eol[0] && OccursAt(cfg.LfLine(), t, |v| + |eol| - 1)
  {
    var t := v + eol + (cfg.Line() + rest);
    Regroup(v, eol, cfg.Line() + rest);
    assert t == (v + eol[..|eol| - 1]) + (cfg.LfLine() + rest);
  }

  /** The first delimiter after a written value starts in the line end that follows the value. */
  lemma FirstDelimiter(cfg: Config, eol: string, v: string, rest: string)
    requires cfg.Valid() && (eol == CRLF || eol == [LF]) && !Occurs(cfg.LfLine(), v)
    ensures Find(cfg.LfLine(), v + eol + (cfg.Line() + rest)) == Some(|v| + |eol| - 1)
  {
    var w := eol + (cfg.Line() + rest);
    DelimiterAt(cfg, eol, v, rest);
    FirstIn(cfg, v, w, v + eol + (cfg.Line() + rest), |v| + |eol| - 1);
  }

  /** A delimiter inside the value ends it early. */
  lemma {:induction false} EarlyDelimiter(cfg: Config, eol: string, v: string, rest: string)
    requires cfg.Valid() && Occurs(cfg.LfLine(), v) && eol != ""
    ensures Find(cfg.LfLine(), v + eol + (cfg.Line() + rest)) != Some(|v| + |eol| - 1)
  {
    var j: nat :| OccursAt(cfg.LfLine(), v, j);
    assert v + eol + (cfg.Line() + rest) == v + (eol + (cfg.Line() + rest));
    OccursBefore(cfg.LfLine(), v, eol + (cfg.Line() + rest), j);
  }

  lemma ContentKeptIff(eol: string, b: nat, v: string)
    requires eol == CRLF || eol == [LF]
    ensures Content(b, v + eol[..|eol| - 1]) == v <==>
            if eol == CRLF then b == 0 || LF in v else !StripsCR(b, v)
  {
    if eol == CRLF {
      assert eol[..|eol| - 1] == [CR];
      assert (v + [CR])[..|v|] == v;
      assert LF in v + [CR] <==> LF in v;
    } else {
      assert v + eol[..|eol| - 1] == v;
    }
  }

  lemma AroundDelimiter(cfg: Config, eol: string, v: string, next: string)
    requires cfg.Valid() && (eol == CRLF || eol == [LF])
    ensures var t, i := v + eol + (cfg.Line() + next), |v| + |eol| - 1;
            t[..i] == v + eol[..|eol| - 1] && t[i + |cfg.LfLine()|..] == next
  {
  }

  /**
   A value read back: the reading of a written value ends at its own delimiter with its own bytes
   exactly when the value is `Kept`.
   */
  lemma ValueKeptIff(cfg: Config, eol: string, b: nat, v: string, rest: string)
    requires cfg.Valid() && b <= 1 && (eol == CRLF || eol == [LF])
    ensures var t := v + eol + (cfg.Line() + rest);
            var i := |v| + |eol| - 1;
            Kept(cfg, eol, b, v) <==> Find(cfg.LfLine(), t) == Some(i) && Content(b, t[..i]) == v
  {
    AroundDelimiter(cfg, eol, v, rest);
    ContentKeptIff(eol, b, v);
    if Occurs(cfg.LfLine(), v) {
      EarlyDelimiter(cfg, eol, v, rest);
    } else {
      FirstDelimiter(cfg, eol, v, rest);
    }
  }

  lemma {:induction false} DropCRAppend(a: string)
    requires CR !in a
    ensures DropCR(a + [CR]) == a
  {
    if a == "" {
      assert a + [CR] == [CR] && [CR][1..] == "";
    } else {
      assert (a + [CR])[1..] == a[1..] + [CR];
      DropCRAppend(a[1..]);
      assert [a[0]] + a[1..] == a;
    }
  }

  lemma DropEol(eol: string, h: string)
    requires (eol == CRLF || eol == [LF]) && CR !in h
    ensures DropCR(h + eol[..|eol| - 1]) == h
  {
    if eol == CRLF {
      assert eol[..|eol| - 1] == [CR];
      DropCRAppend(h);
    } else {
      assert h + eol[..|eol| - 1] == h;
    }
  }

  lemma LineThen(eol: string, h: string, t: string)
    requires (eol == CRLF || eol == [LF]) && LF !in h
    ensures var u, n := h + (eol + t), |h| + |eol| - 1;
            CSpan(u, {LF}) == n && u[..n] == h + eol[..|eol| - 1] && u[n + 1..] == t
  {
    var x := h + eol[..|eol| - 1];
    assert h + (eol + t) == x + ([LF] + t);
    SpanOver(x, [LF] + t, {LF});
  }

  /** One written header line. */
  lemma ReadLine(cfg: Config, eol: string, b: nat, params: map<string, string>, name: string, h: string, t: string)
    requires cfg.Valid() && (eol == CRLF || eol == [LF]) && Fits(cfg, h)
    requires LF !in h && CR !in h
    ensures PartHeaders(cfg, b, params, name, h + (eol + t)) == AfterLine(cfg, b, params, name, h, t)
  {
    hide AfterLine, PartData, CSpan, DropCR;
    LineThen(eol, h, t);
    DropEol(eol, h);
  }

  /** Reading the header lines of a written part. */
  lemma {:induction false} HeaderLinesRead(cfg: Config, eol: string, b: nat, params: map<string, string>,
                                           name: string, headers: seq<string>, t: string)
    requires cfg.Valid() && (eol == CRLF || eol == [LF])
    requires forall h :: h in headers ==> GoodHeader(cfg, h)
    ensures PartHeaders(cfg, b, params, name, HeaderLines(eol, headers) + (eol + t))
         == PartData(cfg, b, params, FieldOf(cfg, name, headers), t)
    decreases |headers|
  {
    if headers == [] {
      assert "" + (eol + t) == HeaderLines(eol, headers) + (eol + t);
      ReadLine(cfg, eol, b, params, name, "", t);
    } else {
      var h, u := headers[0], HeaderLines(eol, headers[1..]) + (eol + t);
      assert h in headers;
      assert HeaderLines(eol, headers) + (eol + t) == h + (eol + u);
      ReadLine(cfg, eol, b, params, name, h, u);
      var r := cfg.parseHeader(h).value;
      HeaderLinesRead(cfg, eol, b, params, if r.FieldName? then r.name else name, headers[1..], t);
    }
  }

  lemma EolThen(eol: string, t: string)
    requires eol == CRLF || eol == [LF]
    ensures CSpan(eol + t, {LF, '-'}) == |eol| - 1 && (eol + t)[|eol| - 1] == LF && (eol + t)[|eol|..] == t
  {
    assert eol + t == eol[..|eol| - 1] + ([LF] + t);
    SpanOver(eol[..|eol| - 1], [LF] + t, {LF, '-'});
  }

  lemma ValueEnds(cfg: Config, eol: string, b: nat, v: string, next: string)
    requires cfg.Valid() && b <= 1 && (eol == CRLF || eol == [LF]) && Kept(cfg, eol, b, v)
    ensures var t, i := v + eol + (cfg.Line() + next), |v| + |eol| - 1;
            && Find(cfg.LfLine(), t) == Some(i) && Content(b, t[..i]) == v
            && (StripsCR(b, t[..i]) <==> eol == CRLF) && t[i + |cfg.LfLine()|..] == next
  {
    ValueKeptIff(cfg, eol, b, v, next);
    AroundDelimiter(cfg, eol, v, next);
  }

  lemma DataEndsAt(cfg: Config, b: nat, params: map<string, string>, name: string, t: string, i: nat)
    requires cfg.Valid() && Find(cfg.LfLine(), t) == Some(i)
    ensures PartData(cfg, b, params, name, t) == PartEnds(cfg, b, params, name, t, i)
  {
  }

  lemma {:induction false} EndIs(cfg: Config, b: nat, params: map<string, string>, name: string, t: string, i: nat,
                                 v: string, b': nat, next: string, r: Outcome)
    requires cfg.Valid() && i + |cfg.LfLine()| <= |t| && Content(b, t[..i]) == v
    requires b' == (if StripsCR(b, t[..i]) then 0 else 1) && t[i + |cfg.LfLine()|..] == next
    requires AfterDelimiter(cfg, b', InsertFirst(params, name, Take(v, cfg.bufSize)), next) == r
    ensures PartEnds(cfg, b, params, name, t, i) == r
  {
    hide AfterDelimiter, Content, StripsCR;
  }

  lemma ValueRead(cfg: Config, eol: string, b: nat, params: map<string, string>, name: string,
                                     v: string, next: string)
    requires cfg.Valid() && b <= 1 && (eol == CRLF || eol == [LF]) && Kept(cfg, eol, b, v)
    ensures PartData(cfg, b, params, name, v + eol + (cfg.Line() + next))
         == AfterDelimiter(cfg, if eol == CRLF then 0 else 1,
                           InsertFirst(params, name, Take(v, cfg.bufSize)), next)
  {
    var t, i := v + eol + (cfg.Line() + next), |v| + |eol| - 1;
    ValueEnds(cfg, eol, b, v, next);
    var b' := if eol == CRLF then 0 else 1;
    var r := AfterDelimiter(cfg, b', InsertFirst(params, name, Take(v, cfg.bufSize)), next);
    DataEndsAt(cfg, b, params, name, t, i);
    EndIs(cfg, b, params, name, t, i, v, b', next, r);
  }

  /** One written part, with anything after the delimiter line that ends it. */
  lemma PartReadsBack(cfg: Config, eol: string, b: nat, params: map<string, string>, p: Part,
                                         next: string)
    requires cfg.Valid() && b <= 1 && (eol == CRLF || eol == [LF])
    requires (forall h :: h in p.headers ==> GoodHeader(cfg, h)) && Kept(cfg, eol, b, p.value)
    ensures AfterDelimiter(cfg, b, params,
                           eol + (HeaderLines(eol, p.headers) + (eol + (p.value + eol + (cfg.Line() + next)))))
         == AfterDelimiter(cfg, if eol == CRLF then 0 else 1,
                           InsertFirst(params, FieldOf(cfg, "", p.headers), Take(p.value, cfg.bufSize)), next)
  {
    var t := p.value + eol + (cfg.Line() + next);
    EolThen(eol, HeaderLines(eol, p.headers) + (eol + t));
    HeaderLinesRead(cfg, eol, b, params, "", p.headers, t);
    ValueRead(cfg, eol, b, params, FieldOf(cfg, "", p.headers), p.value, next);
  }

  lemma FirstPart(cfg: Config, eol: string, parts: seq<Part>, rest: string)
    requires cfg.Valid() && parts != []
    ensures var p, next := parts[0], AfterLineText(cfg, eol, parts[1..]) + rest;
            AfterLineText(cfg, eol, parts) + rest ==
              eol + (HeaderLines(eol, p.headers) + (eol + (p.value + eol + (cfg.Line() + next))))
  {
    var p, after := parts[0], AfterLineText(cfg, eol, parts[1..]);
    var v := ValueText(cfg, eol, parts);
    Regroup(eol, HeaderLines(eol, p.headers) + (eol + v), rest);
    Regroup(HeaderLines(eol, p.headers), eol + v, rest);
    Regroup(eol, v, rest);
    Regroup(p.value + eol, cfg.Line() + after, rest);
    Regroup(cfg.Line(), after, rest);
  }

  /** The round trip, from any point at which a delimiter line has just been read. */
  lemma {:induction false} PartsReadBack(cfg: Config, eol: string, b: nat, params: map<string, string>,
                                         parts: seq<Part>, rest: string)
    requires cfg.Valid() && b <= 1 && (eol == CRLF || eol == [LF]) && GoodParts(cfg, eol, b, parts)
    ensures AfterDelimiter(cfg, b, params, AfterLineText(cfg, eol, parts) + rest)
         == Outcome(Stored(cfg, params, parts), true)
    decreases |parts|
  {
    if parts == [] {
      assert CSpan("--" + rest, {LF, '-'}) == 0;
    } else {
      var p := parts[0];
      FirstPart(cfg, eol, parts, rest);
      PartReadsBack(cfg, eol, b, params, p, AfterLineText(cfg, eol, parts[1..]) + rest);
      var params' := InsertFirst(params, FieldOf(cfg, "", p.headers), Take(p.value, cfg.bufSize));
      PartsReadBack(cfg, eol, if eol == CRLF then 0 else 1, params', parts[1..], rest);
    }
  }

  /** What may come before the first delimiter line: nothing, or whole lines without a delimiter in them. */
  ghost predicate GoodPreamble(cfg: Config, pre: string)
    requires cfg.Valid()
  {
    (pre == "" || pre[|pre| - 1] == LF) && !Occurs(cfg.Line(), pre)
  }

  lemma LineFeedInside(l: string, t: string, i: nat, m: nat)
    requires LF !in l && i <= m < i + |l| && m < |t| && t[m] == LF
    ensures !OccursAt(l, t, i)
  {
    assert i + |l| <= |t| ==> t[i..i + |l|][m - i] == LF;
  }

  lemma NotInPreamble(cfg: Config, t: string, k: nat, i: nat)
    requires cfg.Valid() && k <= |t| && GoodPreamble(cfg, t[..k])
    ensures OccursAt(cfg.Line(), t, i) ==> k <= i
  {
    var l := cfg.Line();
    if i < k {
      assert t == t[..k] + t[k..];
      OccursBefore(l, t[..k], t[k..], i);
      if k < i + |l| {
        LineFeedInside(l, t, i, k - 1);
      }
    }
  }

  /** The delimiter after such a preamble is the first that is recognised. */
  lemma {:induction false} PreambleSkipped(cfg: Config, t: string, k: nat)
    requires cfg.Valid() && OccursAt(cfg.Line(), t, k) && GoodPreamble(cfg, t[..k])
    ensures SeekEnd(cfg.Line(), t) == Some(k + |cfg.Line()|)
  {
    forall i: nat | i < k ensures !OccursAt(cfg.Line(), t, i) {
      NotInPreamble(cfg, t, k, i);
    }
    SeekIsFirst(cfg.Line(), t, k);
  }

  lemma BodyFrom(cfg: Config, params: map<string, string>, t: string, n: nat, after: string)
    requires cfg.Valid() && SeekEnd(cfg.Line(), t) == Some(n) && t[n..] == after
    ensures Body(cfg, params, t) == AfterDelimiter(cfg, 0, params, after)
  {
  }

  lemma Around(pre: string, l: string, after: string)
    ensures var t := pre + (l + after);
            OccursAt(l, t, |pre|) && t[..|pre|] == pre && t[|pre| + |l|..] == after
  {
  }

  lemma BodyAfterPreamble(cfg: Config, params: map<string, string>, pre: string, t: string, after: string)
    requires cfg.Valid() && GoodPreamble(cfg, pre) && OccursAt(cfg.Line(), t, |pre|) && t[..|pre|] == pre
    requires t[|pre| + |cfg.Line()|..] == after
    ensures Body(cfg, params, t) == AfterDelimiter(cfg, 0, params, after)
  {
    PreambleSkipped(cfg, t, |pre|);
    BodyFrom(cfg, params, t, |pre| + |cfg.Line()|, after);
  }

  /** A whole form, between a preamble and an epilogue. */
  lemma FormReadBack(cfg: Config, eol: string, params: map<string, string>, pre: string,
                                        parts: seq<Part>, rest: string)
    requires cfg.Valid() && (eol == CRLF || eol == [LF])
    requires GoodPreamble(cfg, pre) && GoodParts(cfg, eol, 0, parts)
    ensures Body(cfg, params, pre + (FormText(cfg, eol, parts) + rest)) == Outcome(Stored(cfg, params, parts), true)
  {
    var t := pre + (FormText(cfg, eol, parts) + rest);
    var after := AfterLineText(cfg, eol, parts) + rest;
    Regroup(cfg.Line(), AfterLineText(cfg, eol, parts), rest);
    Around(pre, cfg.Line(), after);
    BodyAfterPreamble(cfg, params, pre, t, after);
    PartsReadBack(cfg, eol, 0, params, parts, rest);
  }

  /**
   Round trip through the byte machine, whatever the chunks in which the form arrives and whatever
   follows its closing delimiter.
   */
  lemma ChunkedFormReadBack(cfg: Config, eol: string, params: map<string, string>, pre: string,
                                               parts: seq<Part>, rest: string, chunks: seq<string>)
    requires cfg.Valid() && cfg.Ascii() && (eol == CRLF || eol == [LF])
    requires GoodPreamble(cfg, pre) && GoodParts(cfg, eol, 0, parts)
    requires Flatten(chunks) == pre + (FormText(cfg, eol, parts) + rest)
    ensures Summary(Feed(cfg, Init(params), chunks)) == Outcome(Stored(cfg, params, parts), true)
  {
    ChunkIndependence(cfg, Init(params), chunks);
    BodyRefines(cfg, params, Flatten(chunks));
    FormReadBack(cfg, eol, params, pre, parts, rest);
  }
}
