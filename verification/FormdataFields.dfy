/** The law of the form parser in a client's terms: fields go in, and the first value of each name comes out. */
module FormdataFields {
  import opened Text
  import opened FormdataHeaders
  import opened FormdataMachine
  import opened FormdataData
  import opened FormdataParser
  import opened FormdataRoundTrip
  import opened FormdataHeaderLines
  import opened FormdataContentType

  datatype Field = Field(name: string, contentType: Option<string>, value: string)

  function TypeText(contentType: string): string {
    "Content-Type:" + (" " + contentType)
  }

  function PartOf(f: Field): Part {
    Part([HeaderText(f.name)] + (if f.contentType.Some? then [TypeText(f.contentType.value)] else []), f.value)
  }

  function PartsOf(fields: seq<Field>): seq<Part> {
    if fields == [] then [] else [PartOf(fields[0])] + PartsOf(fields[1..])
  }

  /** A name that fits its header line of less than 512 bytes, and a type that is not empty, likewise. */
  ghost predicate GoodField(f: Field) {
    && (forall i :: 0 <= i < |f.name| ==> f.name[i] !in {'"', CR, LF, NUL}) && |f.name| <= 472
    && (f.contentType.Some? ==>
          var ct := f.contentType.value;
          ct != "" && ct[0] != ' ' && CR !in ct && LF !in ct && |ct| <= 497)
  }

  lemma TypeAccepted(cfg: Config, ct: string)
    requires cfg.parseHeader == ParsePartHeader && cfg.maxHeader == 512
    requires ct != "" && ct[0] != ' ' && CR !in ct && LF !in ct && |ct| <= 497
    ensures GoodHeader(cfg, TypeText(ct)) && cfg.parseHeader(TypeText(ct)) == Ok(ContentType(ct))
  {
    var d := "Content-Type:";
    TypePrefix(d);
    assert d[..13] == d;
    TypeLine(TypeText(ct), d, " ", ct);
    assert CR !in d && LF !in d && CR !in " " && LF !in " ";
  }

  lemma FieldHeaders(cfg: Config, f: Field)
    requires cfg.parseHeader == ParsePartHeader && cfg.maxHeader == 512 && GoodField(f)
    ensures forall h :: h in PartOf(f).headers ==> GoodHeader(cfg, h)
    ensures FieldOf(cfg, "", PartOf(f).headers) == f.name
  {
    var others := if f.contentType.Some? then [TypeText(f.contentType.value)] else [];
    if f.contentType.Some? {
      TypeAccepted(cfg, f.contentType.value);
    }
    ClientHeaders(cfg, f.name, others);
  }

  lemma {:induction false} FieldsAreGoodParts(cfg: Config, fields: seq<Field>)
    requires cfg.Valid() && cfg.parseHeader == ParsePartHeader && cfg.maxHeader == 512
    requires forall f :: f in fields ==> GoodField(f) && !Occurs(cfg.LfLine(), f.value)
    ensures GoodParts(cfg, CRLF, 0, PartsOf(fields))
    decreases |fields|
  {
    if fields != [] {
      assert fields[0] in fields;
      FieldHeaders(cfg, fields[0]);
      FieldsAreGoodParts(cfg, fields[1..]);
      assert PartsOf(fields)[1..] == PartsOf(fields[1..]);
    }
  }

  ghost predicate FirstWith(fields: seq<Field>, i: nat, name: string) {
    i < |fields| && fields[i].name == name && forall j :: 0 <= j < i ==> fields[j].name != name
  }

  function Cut(v: string): string {
    if |v| <= 131072 then v else v[..131072]
  }

  lemma {:induction false} StoredInFirst(cfg: Config, params: map<string, string>, fields: seq<Field>)
    requires cfg.parseHeader == ParsePartHeader && cfg.maxHeader == 512 && cfg.bufSize == 131072
    requires fields != [] && GoodField(fields[0])
    ensures Stored(cfg, params, PartsOf(fields))
         == Stored(cfg, InsertFirst(params, fields[0].name, Cut(fields[0].value)), PartsOf(fields[1..]))
  {
    FieldHeaders(cfg, fields[0]);
    assert PartsOf(fields)[1..] == PartsOf(fields[1..]);
  }

  /** `r` is `params` and, of each other name, the first value. */
  ghost predicate AddsFirst(params: map<string, string>, fields: seq<Field>, r: map<string, string>) {
    && (forall k :: k in params ==> k in r && r[k] == params[k])
    && (forall k, i: nat :: FirstWith(fields, i, k) && k !in params ==> k in r && r[k] == Cut(fields[i].value))
    && (forall k :: k in r && k !in params ==> exists i: nat :: FirstWith(fields, i, k))
  }

  lemma FirstInTail(fields: seq<Field>, i: nat, k: string)
    requires fields != []
    ensures FirstWith(fields, i + 1, k) <==> fields[0].name != k && FirstWith(fields[1..], i, k)
    ensures FirstWith(fields, 0, k) <==> fields[0].name == k
  {
    assert forall j :: 0 <= j < |fields| - 1 ==> fields[1..][j] == fields[j + 1];
  }

  lemma AddsFirstStep(params: map<string, string>, fields: seq<Field>, r: map<string, string>)
    requires fields != []
    requires AddsFirst(InsertFirst(params, fields[0].name, Cut(fields[0].value)), fields[1..], r)
    ensures AddsFirst(params, fields, r)
  {
    hide Cut;
    var m := InsertFirst(params, fields[0].name, Cut(fields[0].value));
    forall k, i: nat | FirstWith(fields, i, k) && k !in params ensures k in r && r[k] == Cut(fields[i].value) {
      FirstInTail(fields, if i == 0 then 0 else i - 1, k);
    }
    forall k | k in r && k !in params ensures exists i: nat :: FirstWith(fields, i, k) {
      FirstInTail(fields, 0, k);
      if k !in m {
        var i: nat :| FirstWith(fields[1..], i, k);
        FirstInTail(fields, i, k);
        assert FirstWith(fields, i + 1, k);
      }
    }
  }

  /** What is stored on top of `params`: these stay, and of each other name the first value. */
  lemma {:induction false} StoredIsFirst(cfg: Config, params: map<string, string>, fields: seq<Field>)
    requires cfg.parseHeader == ParsePartHeader && cfg.maxHeader == 512 && cfg.bufSize == 131072
    requires forall f :: f in fields ==> GoodField(f)
    ensures AddsFirst(params, fields, Stored(cfg, params, PartsOf(fields)))
    decreases |fields|
  {
    if fields != [] {
      hide Stored, PartsOf, GoodField, Cut, AddsFirst;
      var m := InsertFirst(params, fields[0].name, Cut(fields[0].value));
      assert fields[0] in fields;
      StoredInFirst(cfg, params, fields);
      StoredIsFirst(cfg, m, fields[1..]);
      AddsFirstStep(params, fields, Stored(cfg, params, PartsOf(fields)));
    }
  }

  /** The parameters are the first value of each name, and nothing else. */
  ghost predicate FirstValues(params: map<string, string>, fields: seq<Field>) {
    && (forall name, n: nat :: FirstWith(fields, n, name) ==> name in params && params[name] == Cut(fields[n].value))
    && (forall name :: name in params ==> exists n: nat :: FirstWith(fields, n, name))
  }

  lemma FieldsReadBack(cfg: Config, pre: string, fields: seq<Field>, rest: string, chunks: seq<string>)
    requires cfg.Valid() && cfg.Ascii() && GoodPreamble(cfg, pre)
    requires cfg.parseHeader == ParsePartHeader && cfg.maxHeader == 512 && cfg.bufSize == 131072
    requires forall f :: f in fields ==> GoodField(f) && !Occurs(cfg.LfLine(), f.value)
    requires Flatten(chunks) == pre + (FormText(cfg, CRLF, PartsOf(fields)) + rest)
    ensures Valid(cfg, Init(map[])) && FirstValues(Final(cfg, Init(map[]), Flatten(chunks)).params, fields)
  {
    hide Run, Feed, FormText, GoodParts;
    FieldsAreGoodParts(cfg, fields);
    StoredIsFirst(cfg, map[], fields);
    ChunkedFormReadBack(cfg, CRLF, map[], pre, PartsOf(fields), rest, chunks);
    ChunkIndependence(cfg, Init(map[]), chunks);
  }

  /**
   The law: fields sent with any accepted Content-Type of the request, in any chunks, between any preamble of
   whole lines and any epilogue, are stored as the first value of each name, cut to 128 KiB, and nothing else is.
   */
  lemma FieldsAreStored(t: string, k: nat, i: nat, b: string, after: string, pre: string, fields: seq<Field>,
                        rest: string, chunks: seq<string>)
    requires SemicolonAt(t, k) && IsFormType(t) && ParameterAt(t, k, i) && t[i + 9..] == b + after
    requires b != "" && (forall j :: 0 <= j < |b| ==> b[j] !in {' ', ';', CR, LF} && b[j] as int < 128)
    requires after != "" ==> after[0] in {' ', ';', CR, LF}
    requires forall f :: f in fields ==> GoodField(f) && !Occurs("\n--" + b, f.value)
    requires var cfg := ConfigOf(b, MAX_HEADER, BUFFER_SIZE);
             && cfg.Valid() && GoodPreamble(cfg, pre)
             && Flatten(chunks) == pre + (FormText(cfg, CRLF, PartsOf(fields)) + rest)
    ensures BoundaryOf(t) == Ok(b)
    ensures var cfg := ConfigOf(b, MAX_HEADER, BUFFER_SIZE);
            Valid(cfg, Init(map[])) && FirstValues(Final(cfg, Init(map[]), Flatten(chunks)).params, fields)
  {
    hide Run, Feed, FormText, GoodPreamble, BoundaryOf, FirstValues;
    var cfg := ConfigOf(b, MAX_HEADER, BUFFER_SIZE);
    BoundaryGiven(t, k, i, b, after);
    assert cfg.LfLine() == "\n--" + b;
    FieldsReadBack(cfg, pre, fields, rest, chunks);
  }
}
