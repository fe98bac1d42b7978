/** The byte machine computes the whole-body reading, for every body. */
module FormdataRefinement {
  import opened Text
  import opened FormdataMachine
  import opened FormdataData
  import opened FormdataReference

  function Summary(s: State): Outcome {
    Outcome(s.params, s.phase.Finish?)
  }

  /** Between parts, nothing of the finished part is left. */
  ghost predicate Clean(cfg: Config, s: State) {
    Valid(cfg, s) && s.value == "" && s.output == ""
  }

  lemma {:induction false} SkipToLine(cfg: Config, s: State, t: string)
    requires Valid(cfg, s) && s.phase.AfterBoundary?
    requires forall i :: 0 <= i < |t| ==> t[i] != LF && t[i] != '-'
    ensures Final(cfg, s, t) == s
    decreases |t|
  {
    if t != "" {
      SkipToLine(cfg, s, t[1..]);
    }
  }

  lemma {:induction false} FirstHeaderByte(cfg: Config, s: State, t: string)
    requires Valid(cfg, s) && s.phase.Headers? && Fits(cfg, s.header)
    requires t != "" && t[0] != LF && t[0] != CR
    ensures DropCR(t) == [t[0]] + DropCR(t[1..])
    ensures if |s.header| < cfg.maxHeader - 1 then
              var s1 := s.(header := s.header + [t[0]]);
              Valid(cfg, s1) && Final(cfg, s, t) == Final(cfg, s1, t[1..])
            else Summary(Final(cfg, s, t)) == Outcome(s.params, true)
  {
    FinalStep(cfg, s, t);
  }

  lemma {:induction false} DropFirstCR(t: string)
    requires t != "" && t[0] == CR
    ensures DropCR(t) == DropCR(t[1..])
  {
    assert "" + DropCR(t[1..]) == DropCR(t[1..]);
  }

  lemma {:induction false} CollectHeaderByte(cfg: Config, s: State, t: string, h: string)
    requires Valid(cfg, s) && s.phase.Headers? && Fits(cfg, s.header)
    requires LF !in t && t != "" && t[0] != CR
    requires h == s.header + DropCR(t)
    ensures if Fits(cfg, h) then Final(cfg, s, t) == s.(header := h)
            else Summary(Final(cfg, s, t)) == Outcome(s.params, true)
    decreases |t|, 0
  {
    FirstHeaderByte(cfg, s, t);
    Regroup(s.header, [t[0]], DropCR(t[1..]));
    if |s.header| < cfg.maxHeader - 1 {
      CollectHeader(cfg, s.(header := s.header + [t[0]]), t[1..], h);
    }
  }

  /** Collecting a header line, or the part of it that has arrived. */
  lemma {:induction false} CollectHeader(cfg: Config, s: State, t: string, h: string)
    requires Valid(cfg, s) && s.phase.Headers? && Fits(cfg, s.header)
    requires LF !in t
    requires h == s.header + DropCR(t)
    ensures if Fits(cfg, h) then Final(cfg, s, t) == s.(header := h)
            else Summary(Final(cfg, s, t)) == Outcome(s.params, true)
    decreases |t|
  {
    if t == "" {
      AppendNothing(s.header);
    } else if t[0] == CR {
      FinalStep(cfg, s, t);
      DropFirstCR(t);
      CollectHeader(cfg, s, t[1..], h);
    } else {
      CollectHeaderByte(cfg, s, t, h);
    }
  }

  lemma FinalSplit(cfg: Config, s: State, t: string, i: nat)
    requires Valid(cfg, s) && i < |t|
    ensures Final(cfg, s, t) == Final(cfg, Step(cfg, Final(cfg, s, t[..i]), t[i]).0, t[i + 1..])
  {
    assert t == t[..i] + [t[i]] + t[i + 1..];
    RunAppend(cfg, s, t[..i] + [t[i]], t[i + 1..]);
    RunSnoc(cfg, s, t[..i], t[i]);
  }

  lemma {:induction false} PartHeadersLine(cfg: Config, b: nat, params: map<string, string>, name: string, t: string)
    requires cfg.Valid()
    requires CSpan(t, {LF}) < |t| && Fits(cfg, DropCR(t[..CSpan(t, {LF})]))
    ensures var j := CSpan(t, {LF});
            PartHeaders(cfg, b, params, name, t) == AfterLine(cfg, b, params, name, DropCR(t[..j]), t[j + 1..])
  {
  }

  /** The first occurrence does not depend on what follows it. */
  lemma FindInPrefix(l: string, v: string, rest: string)
    requires Find(l, v + l + rest) == Some(|v|)
    ensures Find(l, v + l) == Some(|v|)
  {
    assert OccursAt(l, v + l, |v|);
    forall j: nat {
      OccursBefore(l, v + l, rest, j);
    }
  }

  lemma {:induction false} DataRefines(cfg: Config, s: State, t: string)
    requires cfg.Ascii() && Clean(cfg, s) && s.phase.Data? && s.start == s.pos
    ensures Summary(Final(cfg, s, t)) == PartData(cfg, s.start, s.params, s.name, t)
    decreases |t|, 0
  {
    match Find(cfg.LfLine(), t)
    case None =>
      var e := DataPrefix(cfg, s.start, s, t);
    case Some(i) =>
      var l := cfg.LfLine();
      var v, rest := t[..i], t[i + |l|..];
      assert t == v + l + rest;
      FindInPrefix(l, v, rest);
      DataRefinesSearch(cfg, s.start, s, v);
      RunAppend(cfg, s, v + l, rest);
      AfterRefines(cfg, PartDone(cfg, s.start, s, v), rest);
  }

  /** The line feed that ends the header line in `s.header`, and all that follows it. */
  lemma {:induction false} LineRefines(cfg: Config, s: State, t: string)
    requires cfg.Ascii() && Clean(cfg, s) && s.phase.Headers?
    ensures Summary(Final(cfg, Step(cfg, s, LF).0, t))
         == AfterLine(cfg, s.start, s.params, s.name, s.header, t)
    decreases |t|, 1
  {
    var r := Step(cfg, s, LF);
    if s.header == "" {
      DataRefines(cfg, r.0, t);
    } else if r.1.Some? {
      FinishAbsorbs(cfg, r.0, t);
    } else {
      HeadersRefine(cfg, r.0, t);
    }
  }

  lemma {:induction false} HeadersRefine(cfg: Config, s: State, t: string)
    requires cfg.Ascii() && Clean(cfg, s) && s.phase.Headers? && s.header == ""
    ensures Summary(Final(cfg, s, t)) == PartHeaders(cfg, s.start, s.params, s.name, t)
    decreases |t|, 0
  {
    var j := CSpan(t, {LF});
    var line := DropCR(t[..j]);
    assert line == s.header + line;
    CollectHeader(cfg, s, t[..j], line);
    if j == |t| {
      assert t[..j] == t;
    } else if Fits(cfg, line) {
      FinalSplit(cfg, s, t, j);
      LineRefines(cfg, s.(header := line), t[j + 1..]);
      PartHeadersLine(cfg, s.start, s.params, s.name, t);
    } else {
      FinalSplit(cfg, s, t, j);
      FinishAbsorbs(cfg, Final(cfg, s, t[..j]), t[j + 1..]);
    }
  }

  lemma {:induction false} AfterRefines(cfg: Config, s: State, t: string)
    requires cfg.Ascii() && Clean(cfg, s) && s.phase.AfterBoundary? && s.name == ""
    ensures Summary(Final(cfg, s, t)) == AfterDelimiter(cfg, s.start, s.params, t)
    decreases |t|, 0
  {
    var k := CSpan(t, {LF, '-'});
    SkipToLine(cfg, s, t[..k]);
    if k == |t| {
      assert t[..k] == t;
    } else {
      FinalSplit(cfg, s, t, k);
      if t[k] == '-' {
        FinishAbsorbs(cfg, s.(phase := Finish), t[k + 1..]);
      } else {
        HeadersRefine(cfg, s.(phase := Headers, header := ""), t[k + 1..]);
      }
    }
  }

  lemma {:induction false} SeekMatches(cfg: Config, s: State, k: nat)
    requires cfg.Ascii() && Valid(cfg, s) && s.phase.Seek? && s.pos == 2
    requires k < |cfg.Line()|
    ensures Final(cfg, s, cfg.Line()[..k]) == s.(pos := 2 + k)
  {
    if k > 0 {
      SeekMatches(cfg, s, k - 1);
      assert cfg.Line()[..k] == cfg.Line()[..k - 1] + [cfg.delim[k + 1]];
      RunSnoc(cfg, s, cfg.Line()[..k - 1], cfg.delim[k + 1]);
    }
  }

  /** The byte-wise seek from the start of an attempt recognises what the reference seek does. */
  ghost predicate SeeksAlike(cfg: Config, s: State, t: string)
    requires Valid(cfg, s)
  {
    var r := SeekEnd(cfg.Line(), t);
    if r.None? then Summary(Final(cfg, s, t)) == Outcome(s.params, false)
    else Final(cfg, s, t[..r.value]) == s.(phase := AfterBoundary, start := 0, pos := 0)
  }

  /** A mismatch gives up the byte it is found at. */
  lemma {:induction false} AttemptFails(cfg: Config, s: State, t: string, k: nat)
    requires cfg.Ascii() && Valid(cfg, s) && s.phase.Seek? && s.pos == 2
    requires k < |cfg.Line()| && k < |t| && t[..k] == cfg.Line()[..k] && t[k] != cfg.Line()[k]
    ensures Final(cfg, s, t) == Final(cfg, s, t[k + 1..])
  {
    SeekMatches(cfg, s, k);
    FinalSplit(cfg, s, t, k);
    assert StepSeek(cfg, s.(pos := 2 + k), t[k]) == s;
  }

  lemma {:induction false} FailedThenFound(cfg: Config, s: State, t: string, k: nat, n: nat)
    requires cfg.Ascii() && Valid(cfg, s) && s.phase.Seek? && s.pos == 2
    requires k < |cfg.Line()| && k + 1 + n <= |t| && t[..k] == cfg.Line()[..k] && t[k] != cfg.Line()[k]
    ensures Final(cfg, s, t[..k + 1 + n]) == Final(cfg, s, t[k + 1..][..n])
  {
    var v := t[..k + 1 + n];
    assert v[..k] == t[..k] && v[k + 1..] == t[k + 1..][..n] && v[k] == t[k];
    AttemptFails(cfg, s, v, k);
  }

  lemma {:induction false} NextFound(cfg: Config, s: State, t: string, k: nat, n: nat)
    requires cfg.Ascii() && Valid(cfg, s) && s.phase.Seek? && s.pos == 2
    requires k < |cfg.Line()| && k + 1 + n <= |t| && t[..k] == cfg.Line()[..k] && t[k] != cfg.Line()[k]
    requires SeekEnd(cfg.Line(), t) == Some(k + 1 + n)
    requires SeekEnd(cfg.Line(), t[k + 1..]) == Some(n) && SeeksAlike(cfg, s, t[k + 1..])
    ensures SeeksAlike(cfg, s, t)
  {
    FailedThenFound(cfg, s, t, k, n);
  }

  lemma {:induction false} NextMissing(cfg: Config, s: State, t: string, k: nat)
    requires cfg.Ascii() && Valid(cfg, s) && s.phase.Seek? && s.pos == 2
    requires k < |cfg.Line()| && k < |t| && t[..k] == cfg.Line()[..k] && t[k] != cfg.Line()[k]
    requires SeekEnd(cfg.Line(), t) == None && SeekEnd(cfg.Line(), t[k + 1..]) == None
    requires SeeksAlike(cfg, s, t[k + 1..])
    ensures SeeksAlike(cfg, s, t)
  {
    AttemptFails(cfg, s, t, k);
  }

  lemma {:induction false} NextAttempt(cfg: Config, s: State, t: string, k: nat)
    requires cfg.Ascii() && Valid(cfg, s) && s.phase.Seek? && s.pos == 2
    requires k < |cfg.Line()| && k < |t| && t[..k] == cfg.Line()[..k] && t[k] != cfg.Line()[k]
    requires SeekEnd(cfg.Line(), t) == Shifted(k + 1, SeekEnd(cfg.Line(), t[k + 1..]))
    requires SeeksAlike(cfg, s, t[k + 1..])
    ensures SeeksAlike(cfg, s, t)
  {
    var r := SeekEnd(cfg.Line(), t[k + 1..]);
    if r.Some? {
      NextFound(cfg, s, t, k, r.value);
    } else {
      NextMissing(cfg, s, t, k);
    }
  }

  lemma LineFound(cfg: Config, s: State)
    requires cfg.Ascii() && Valid(cfg, s) && s.phase.Seek? && s.pos == 2
    ensures Final(cfg, s, cfg.Line()) == s.(phase := AfterBoundary, start := 0, pos := 0)
  {
    var l := cfg.Line();
    var k := |l| - 1;
    SeekMatches(cfg, s, k);
    assert l == l[..k] + [cfg.delim[k + 2]];
    RunSnoc(cfg, s, l[..k], cfg.delim[k + 2]);
  }

  lemma {:induction false} SeekRefines(cfg: Config, s: State, t: string)
    requires cfg.Ascii() && Valid(cfg, s) && s.phase.Seek? && s.pos == 2
    ensures SeeksAlike(cfg, s, t)
    decreases |t|
  {
    var l := cfg.Line();
    var k := CommonPrefix(l, t);
    if k == |l| {
      LineFound(cfg, s);
      assert t[..k] == l[..k] == l;
    } else if k == |t| {
      SeekMatches(cfg, s, k);
      assert t == l[..k];
    } else {
      SeekRefines(cfg, s, t[k + 1..]);
      SeekEndAfterMismatch(l, t, k);
      NextAttempt(cfg, s, t, k);
    }
  }

  /**
   The main result: for every body, however its line ends are mixed and wherever it breaks off, the
   byte machine ends with the parameters of the whole-body reading.
   */
  lemma BodyRefines(cfg: Config, params: map<string, string>, t: string)
    requires cfg.Valid() && cfg.Ascii()
    ensures Summary(Final(cfg, Init(params), t)) == Body(cfg, params, t)
  {
    var s := Init(params);
    SeekRefines(cfg, s, t);
    match SeekEnd(cfg.Line(), t)
    case None =>
    case Some(n) =>
      assert t == t[..n] + t[n..];
      RunAppend(cfg, s, t[..n], t[n..]);
      AfterRefines(cfg, s.(phase := AfterBoundary, start := 0, pos := 0), t[n..]);
  }

  /** A boundary byte above 127 never matches, so no body is ever taken apart. */
  lemma {:induction false} NonAsciiBoundary(cfg: Config, s: State, k: nat, t: string)
    requires Valid(cfg, s) && s.phase.Seek? && s.pos <= k < |cfg.delim| && !IsAscii(cfg.delim[k])
    ensures var r := Final(cfg, s, t);
            r.phase.Seek? && r.params == s.params
    decreases |t|
  {
    if t != "" {
      NonAsciiBoundary(cfg, StepSeek(cfg, s, t[0]), k, t[1..]);
    }
  }

  /** The shortest complete form, a lone closing delimiter, is recognised exactly for an ASCII boundary. */
  lemma AsciiBoundaryNeeded(cfg: Config, params: map<string, string>)
    requires cfg.Valid()
    ensures cfg.Ascii() <==> Final(cfg, Init(params), cfg.Line() + "--").phase.Finish?
  {
    var t := cfg.Line() + "--";
    if cfg.Ascii() {
      BodyRefines(cfg, params, t);
      assert t[..|cfg.Line()|] == cfg.Line();
      assert SeekEnd(cfg.Line(), t) == Some(|cfg.Line()|);
      assert t[|cfg.Line()|..] == "--";
    } else {
      var k :| 0 <= k < |cfg.delim| && !IsAscii(cfg.delim[k]);
      NonAsciiBoundary(cfg, Init(params), k, t);
    }
  }
}
