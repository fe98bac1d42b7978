/**
 The multipart/form-data parser as a byte machine on values: one `Step` per input byte.
 The class in FormdataParser.dfy is proved against it.
 */
module FormdataMachine {
  import opened Text
  import opened FormdataHeaders

  datatype Phase = Seek | AfterBoundary | Headers | Data | Finish

  /** `start` and `pos` are the offsets of boundary_start and boundary_pos in the delimiter. */
  datatype State = State(
    phase: Phase, start: nat, pos: nat,
    header: string, output: string,
    name: string, value: string, contentType: string,
    params: map<string, string>)

  predicate IsAscii(c: char) {
    c as int < 128
  }

  ghost predicate Valid(cfg: Config, s: State) {
    && cfg.Valid()
    && |s.output| < cfg.bufSize
    && |s.header| <= cfg.maxHeader
    && s.start <= s.pos < |cfg.delim|
    && (if s.phase.Seek? then s.start == 2 else s.start <= 1)
    && (s.phase.AfterBoundary? || s.phase.Headers? || s.phase.Finish? ==> s.pos == s.start)
  }

  /**
   `delim` is CR LF "--" followed by the boundary of the Content-Type header. The machine makes nothing
   of a header line but what `parseHeader` says of it.
   */
  datatype Config = Config(
    delim: string, maxHeader: nat, bufSize: nat, parseHeader: string -> Result<Header, Error>)
  {

    ghost predicate Valid() {
      && 1 <= bufSize
      && 4 < |delim|
      && delim[0] == CR && delim[1] == LF && delim[2] == delim[3] == '-'
      && forall i :: 2 <= i < |delim| ==> delim[i] != CR && delim[i] != LF
    }

    /** A delimiter as it stands at the start of a line, with and without its line feed. */
    function Line(): string
      requires 4 < |delim|
    {
      delim[2..]
    }

    function LfLine(): string
      requires 4 < |delim|
    {
      delim[1..]
    }

    predicate Ascii() {
      forall i :: 0 <= i < |delim| ==> IsAscii(delim[i])
    }
  }

  function Init(params: map<string, string>): State {
    State(Seek, 2, 2, "", "", "", "", "", params)
  }

  /** Compares an unsigned byte with a signed one: a delimiter byte above 127 matches nothing. */
  predicate Matches(c: char, b: char) {
    c == b && IsAscii(b)
  }

  function Flush(s: State): State {
    if s.output == "" then s
    else s.(value := if s.value == "" then s.output else s.value, output := "")
  }

  function Putc(cfg: Config, s: State, c: char): State {
    var s1 := s.(output := s.output + [c]);
    if |s1.output| == cfg.bufSize then Flush(s1) else s1
  }

  function PutAll(cfg: Config, s: State, t: string): State
    decreases |t|
  {
    if t == "" then s else PutAll(cfg, Putc(cfg, s, t[0]), t[1..])
  }

  lemma PutAllStep(cfg: Config, s: State, t: string, q: nat, end: nat)
    requires q < end <= |t|
    ensures PutAll(cfg, s, t[q..end]) == PutAll(cfg, Putc(cfg, s, t[q]), t[q + 1..end])
  {
    assert t[q..end][1..] == t[q + 1..end];
  }

  lemma {:induction false} PutAllKeeps(cfg: Config, s: State, t: string)
    requires Valid(cfg, s)
    ensures var r := PutAll(cfg, s, t);
            |r.output| < cfg.bufSize && r == s.(output := r.output, value := r.value)
    decreases |t|
  {
    if t != "" {
      PutAllKeeps(cfg, Putc(cfg, s, t[0]), t[1..]);
    }
  }

  /** Inserts the finished part and clears its attributes. */
  function FinishPart(s: State): State {
    s.(params := InsertFirst(s.params, s.name, s.value), name := "", value := "", contentType := "")
  }

  /** A delimiter has matched in full: `start` survives into the next part. */
  function Delimited(s: State): State {
    FinishPart(Flush(s.(phase := AfterBoundary, pos := s.start)))
  }

  /** Outputs the failed partial match, taken from the delimiter itself, and restarts the matcher. */
  function Dump(cfg: Config, s: State): (r: State)
    requires Valid(cfg, s) && s.phase.Data?
    ensures Valid(cfg, r) && r.phase.Data? && r.start == r.pos == 0
  {
    PutAllKeeps(cfg, s, cfg.delim[s.start..s.pos]);
    PutAll(cfg, s, cfg.delim[s.start..s.pos]).(start := 0, pos := 0)
  }

  function StepData(cfg: Config, s: State, c: char): (r: State)
    requires Valid(cfg, s) && s.phase.Data?
    ensures Valid(cfg, r)
    decreases s.pos - s.start
  {
    if Matches(c, cfg.delim[s.pos]) then
      if s.pos + 1 == |cfg.delim| then Delimited(s) else s.(pos := s.pos + 1)
    else if s.pos == s.start then
      if c == LF then s.(start := 1, pos := 2) else Putc(cfg, s, c)
    else
      StepData(cfg, Dump(cfg, s), c)
  }

  function StepSeek(cfg: Config, s: State, c: char): (r: State)
    requires Valid(cfg, s) && s.phase.Seek?
    ensures Valid(cfg, r)
  {
    var pos := if Matches(c, cfg.delim[s.pos]) then s.pos + 1 else s.start;
    if pos == |cfg.delim| then s.(phase := AfterBoundary, start := 0, pos := 0) else s.(pos := pos)
  }

  function Apply(s: State, h: Header): State {
    match h
    case FieldName(n) => s.(name := n)
    case ContentType(ct) => s.(contentType := ct)
    case Other => s
  }

  /** The effect of a complete, non-empty header line. */
  function HeaderLine(cfg: Config, s: State): (State, Option<Error>) {
    match cfg.parseHeader(s.header)
    case Ok(h) => (Apply(s, h).(header := ""), None)
    case Err(e) =>
      (s.(phase := Finish, contentType := if e.EmptyContentType? then "" else s.contentType), Some(e))
  }

  function StepHeaders(cfg: Config, s: State, c: char): (r: (State, Option<Error>))
    requires Valid(cfg, s) && s.phase.Headers?
    ensures Valid(cfg, r.0) && (r.1.Some? ==> r.0.phase.Finish?)
  {
    if c == LF then
      if s.header == "" then (s.(phase := Data, output := ""), None) else HeaderLine(cfg, s)
    else if c == CR then (s, None)
    else if |s.header| < cfg.maxHeader - 1 then (s.(header := s.header + [c]), None)
    else (s.(phase := Finish), Some(HeaderTooLong))
  }

  /** One iteration of the byte loop, together with the second reading of the byte, if any. */
  function Step(cfg: Config, s: State, c: char): (r: (State, Option<Error>))
    requires Valid(cfg, s)
    ensures Valid(cfg, r.0) && (r.1.Some? ==> r.0.phase.Finish?)
  {
    match s.phase
    case Seek => (StepSeek(cfg, s, c), None)
    case AfterBoundary =>
      (if c == LF then s.(phase := Headers, header := "")
       else if c == '-' then s.(phase := Finish)
       else s, None)
    case Headers => StepHeaders(cfg, s, c)
    case Data => (StepData(cfg, s, c), None)
    case Finish => (s, None)
  }

  /** A non-empty buffer: a throw abandons the rest of it. */
  function Run(cfg: Config, s: State, t: string): (r: (State, Option<Error>))
    requires Valid(cfg, s)
    ensures Valid(cfg, r.0) && (r.1.Some? ==> r.0.phase.Finish?)
    decreases |t|
  {
    if t == "" then (s, None)
    else
      var r := Step(cfg, s, t[0]);
      if r.1.Some? then r else Run(cfg, r.0, t[1..])
  }

  lemma RunStep(cfg: Config, s: State, t: string, p: nat)
    requires Valid(cfg, s) && p < |t|
    ensures var r := Step(cfg, s, t[p]);
            Run(cfg, s, t[p..]) == if r.1.Some? then r else Run(cfg, r.0, t[p + 1..])
  {
    assert t[p..][1..] == t[p + 1..];
  }

  lemma RunEnd(cfg: Config, s: State, t: string)
    requires Valid(cfg, s)
    ensures Run(cfg, s, t[|t|..]) == (s, None)
  {
  }

  function Final(cfg: Config, s: State, t: string): (r: State)
    requires Valid(cfg, s)
    ensures Valid(cfg, r)
  {
    Run(cfg, s, t).0
  }

  lemma FinalStep(cfg: Config, s: State, t: string)
    requires Valid(cfg, s) && t != ""
    ensures var r := Step(cfg, s, t[0]);
            Final(cfg, s, t) == if r.1.Some? then r.0 else Final(cfg, r.0, t[1..])
  {
  }

  /** The chunk loop of a request: a throw is swallowed and the next chunk is fed all the same. */
  function Feed(cfg: Config, s: State, chunks: seq<string>): (r: State)
    requires Valid(cfg, s)
    ensures Valid(cfg, r)
    decreases |chunks|
  {
    if chunks == [] then s else Feed(cfg, Final(cfg, s, chunks[0]), chunks[1..])
  }

  lemma FeedStep(cfg: Config, s: State, chunks: seq<string>, i: nat)
    requires Valid(cfg, s) && i < |chunks|
    ensures Feed(cfg, s, chunks[i..]) == Feed(cfg, Final(cfg, s, chunks[i]), chunks[i + 1..])
  {
    assert chunks[i..][1..] == chunks[i + 1..];
  }

  function Flatten(chunks: seq<string>): string {
    if chunks == [] then "" else chunks[0] + Flatten(chunks[1..])
  }

  lemma {:induction false} FinishAbsorbs(cfg: Config, s: State, t: string)
    requires Valid(cfg, s) && s.phase.Finish?
    ensures Run(cfg, s, t) == (s, None)
  {
    if t != "" {
      FinishAbsorbs(cfg, s, t[1..]);
    }
  }

  lemma {:induction false} RunAppend(cfg: Config, s: State, a: string, b: string)
    requires Valid(cfg, s)
    ensures Final(cfg, s, a + b) == Final(cfg, Final(cfg, s, a), b)
    decreases |a|
  {
    if a == "" {
      assert a + b == b;
    } else {
      assert (a + b)[0] == a[0] && (a + b)[1..] == a[1..] + b;
      var r := Step(cfg, s, a[0]);
      if r.1.Some? {
        FinishAbsorbs(cfg, r.0, b);
      } else {
        RunAppend(cfg, r.0, a[1..], b);
      }
    }
  }

  lemma RunSnoc(cfg: Config, s: State, a: string, c: char)
    requires Valid(cfg, s)
    ensures Final(cfg, s, a + [c]) == Step(cfg, Final(cfg, s, a), c).0
  {
    RunAppend(cfg, s, a, [c]);
    var r := Step(cfg, Final(cfg, s, a), c);
    assert [c][1..] == "";
    assert Run(cfg, r.0, "") == (r.0, None);
  }

  /** How the body is cut into chunks makes no difference to the parser's whole state. */
  lemma {:induction false} ChunkIndependence(cfg: Config, s: State, chunks: seq<string>)
    requires Valid(cfg, s)
    ensures Feed(cfg, s, chunks) == Final(cfg, s, Flatten(chunks))
    decreases |chunks|
  {
    if chunks != [] {
      ChunkIndependence(cfg, Final(cfg, s, chunks[0]), chunks[1..]);
      RunAppend(cfg, s, chunks[0], Flatten(chunks[1..]));
    }
  }
}
