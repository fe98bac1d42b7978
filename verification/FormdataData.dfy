/**
 The data state: the incremental matcher with its one-byte re-read finds exactly the first
 LF "--" boundary, and emits exactly the bytes before it, less at most one CR.
 */
module FormdataData {
  import opened Text
  import opened FormdataMachine

  predicate EndsWithCR(t: string) {
    t != "" && t[|t| - 1] == CR
  }

  /**
   Whether a CR directly before the delimiter's LF belongs to the delimiter, for a part entered at
   `boundary_start` = b whose bytes up to that LF are `v`. A part that follows a delimiter matched
   at its LF (b = 1) keeps the CR until some other line feed has reset the matcher.
   */
  predicate StripsCR(b: nat, v: string) {
    EndsWithCR(v) && (b == 0 || LF in v)
  }

  /** The content of a part whose bytes before the delimiter's LF are `v`. */
  function Content(b: nat, v: string): string {
    if StripsCR(b, v) then v[..|v| - 1] else v
  }

  /** How many octets follow the last line feed. */
  function LastLineLength(u: string): (n: nat)
    ensures n <= |u| && forall i :: |u| - n <= i < |u| ==> u[i] != LF
    ensures n < |u| ==> u[|u| - n - 1] == LF
  {
    if u == "" || u[|u| - 1] == LF then 0 else 1 + LastLineLength(u[..|u| - 1])
  }

  /** The characters after the last line feed. */
  function LastLine(u: string): (r: string)
    ensures LF !in r
    ensures |r| <= |u| && (LF in u ==> |r| < |u|)
    ensures u[|u| - |r|..] == r
    ensures LF in u ==> u[|u| - |r| - 1] == LF
  {
    u[|u| - LastLineLength(u)..]
  }

  lemma LastLineSnoc(u: string, c: char)
    ensures LastLine(u + [c]) == if c == LF then "" else LastLine(u) + [c]
  {
    assert (u + [c])[..|u|] == u;
    var n := LastLineLength(u);
    assert c != LF ==> (u + [c])[|u| - n..] == u[|u| - n..] + [c];
  }

  lemma {:induction false} LastLineOf(w: string, x: string)
    requires LF !in x
    ensures LastLine(w + [LF] + x) == x
    decreases |x|
  {
    if x == "" {
      assert w + [LF] + x == w + [LF];
    } else {
      var y := x[..|x| - 1];
      LastLineOf(w, y);
      assert w + [LF] + x == (w + [LF] + y) + [x[|x| - 1]];
      LastLineSnoc(w + [LF] + y, x[|x| - 1]);
    }
  }

  /** The last line so far is the beginning of a delimiter line. */
  ghost predicate Matching(cfg: Config, u: string)
    requires cfg.Valid()
  {
    LF in u && LastLine(u) <= cfg.Line()
  }

  /** What comes before the line feed of the last line. */
  function BeforeLastLine(u: string): string
    requires LF in u
  {
    u[..|u| - 1 - |LastLine(u)|]
  }

  /** Where the matcher stands after `u`, in closed form. */
  ghost function TrackStart(cfg: Config, b: nat, u: string): nat
    requires cfg.Valid()
  {
    if Matching(cfg, u) then if StripsCR(b, BeforeLastLine(u)) then 0 else 1
    else if b == 1 && LF !in u then 1 else 0
  }

  ghost function TrackPos(cfg: Config, b: nat, u: string): nat
    requires cfg.Valid()
  {
    if Matching(cfg, u) then 2 + |LastLine(u)|
    else if (b == 1 && LF !in u) || EndsWithCR(u) then 1 else 0
  }

  /** Field value and output buffer together stand for the emitted bytes `e`, cut to the buffer size. */
  ghost predicate Emitted(cfg: Config, s: State, e: string) {
    && |s.output| < cfg.bufSize
    && if |e| < cfg.bufSize then s.value == "" && s.output == e else s.value == e[..cfg.bufSize]
  }

  /** The fields that the data state leaves alone until the delimiter is complete. */
  predicate SamePart(s0: State, s: State) {
    && s.phase == s0.phase && s.header == s0.header && s.name == s0.name
    && s.contentType == s0.contentType && s.params == s0.params
  }

  /**
   In the data state after the part's bytes `u`, none of them yet a whole delimiter: the bytes `e`
   already emitted, followed by the pending partial match, are the bytes consumed.
   */
  ghost predicate Tracks(cfg: Config, b: nat, s0: State, u: string, e: string, s: State) {
    && Valid(cfg, s) && s.phase.Data?
    && SamePart(s0, s)
    && s.start == TrackStart(cfg, b, u) && s.pos == TrackPos(cfg, b, u)
    && e + cfg.delim[s.start..s.pos] == u
    && Emitted(cfg, s, e)
  }

  lemma PutcEmits(cfg: Config, s: State, e: string, c: char)
    requires Valid(cfg, s) && Emitted(cfg, s, e)
    ensures Emitted(cfg, Putc(cfg, s, c), e + [c])
  {
    if |e| + 1 <= cfg.bufSize {
      assert (e + [c])[..|e| + 1] == e + [c];
    } else {
      assert (e + [c])[..cfg.bufSize] == e[..cfg.bufSize];
    }
  }

  lemma {:induction false} PutAllEmits(cfg: Config, s: State, e: string, t: string)
    requires Valid(cfg, s) && Emitted(cfg, s, e)
    ensures Emitted(cfg, PutAll(cfg, s, t), e + t)
    decreases |t|
  {
    if t == "" {
      assert e + t == e;
    } else {
      PutcEmits(cfg, s, e, t[0]);
      PutAllEmits(cfg, Putc(cfg, s, t[0]), e + [t[0]], t[1..]);
      assert e + [t[0]] + t[1..] == e + t;
    }
  }

  lemma PrefixSnoc(p: string, c: char, l: string)
    ensures p + [c] <= l <==> p <= l && |p| < |l| && l[|p|] == c
  {
    if p + [c] <= l {
      assert l[|p|] == (p + [c])[|p|];
      assert forall i :: 0 <= i < |p| ==> l[i] == (p + [c])[i];
    }
  }

  /** One more byte keeps the last line a beginning of a delimiter line, or starts a new line. */
  lemma {:induction false} MatchingSnoc(cfg: Config, u: string, c: char)
    requires cfg.Valid()
    ensures var n := |LastLine(u)|;
            Matching(cfg, u + [c]) <==>
            c == LF || (Matching(cfg, u) && 2 + n < |cfg.delim| && c == cfg.delim[2 + n])
    ensures LF in u + [c] <==> LF in u || c == LF
    ensures EndsWithCR(u + [c]) <==> c == CR
  {
    LastLineSnoc(u, c);
    PrefixSnoc(LastLine(u), c, cfg.Line());
  }

  lemma BeforeLastLineSnoc(u: string, c: char)
    requires LF in u && c != LF
    ensures |LastLine(u + [c])| == |LastLine(u)| + 1
    ensures LF in u + [c] && BeforeLastLine(u + [c]) == BeforeLastLine(u)
  {
    LastLineSnoc(u, c);
    var k := |u| - 1 - |LastLine(u)|;
    assert (u + [c])[..k] == u[..k];
  }

  lemma {:induction false} TracksOn(cfg: Config, b: nat, u: string, w: string)
    requires cfg.Valid() && Matching(cfg, u) && Matching(cfg, w)
    requires |LastLine(w)| == |LastLine(u)| + 1
    requires BeforeLastLine(w) == BeforeLastLine(u)
    ensures TrackPos(cfg, b, w) == TrackPos(cfg, b, u) + 1
    ensures TrackStart(cfg, b, w) == TrackStart(cfg, b, u)
  {
  }

  lemma {:induction false} MatchGoesOn(cfg: Config, b: nat, u: string, c: char)
    requires cfg.Valid() && b <= 1 && Matching(cfg, u) && TrackPos(cfg, b, u) < |cfg.delim|
    requires c == cfg.delim[TrackPos(cfg, b, u)]
    ensures TrackPos(cfg, b, u + [c]) == TrackPos(cfg, b, u) + 1
    ensures TrackStart(cfg, b, u + [c]) == TrackStart(cfg, b, u)
  {
    MatchingSnoc(cfg, u, c);
    BeforeLastLineSnoc(u, c);
    TracksOn(cfg, b, u, u + [c]);
  }

  lemma {:induction false} MatchStarts(cfg: Config, b: nat, u: string)
    requires cfg.Valid() && b <= 1 && !Matching(cfg, u) && TrackPos(cfg, b, u) == 1
    ensures TrackPos(cfg, b, u + [LF]) == 2 && TrackStart(cfg, b, u + [LF]) == TrackStart(cfg, b, u)
  {
    MatchingSnoc(cfg, u, LF);
    LastLineSnoc(u, LF);
    assert (u + [LF])[..|u|] == u;
  }

  lemma {:induction false} MatchMoves(cfg: Config, b: nat, u: string, c: char)
    requires cfg.Valid() && b <= 1 && TrackPos(cfg, b, u) < |cfg.delim|
    requires c == cfg.delim[TrackPos(cfg, b, u)]
    ensures TrackPos(cfg, b, u + [c]) == TrackPos(cfg, b, u) + 1
    ensures TrackStart(cfg, b, u + [c]) == TrackStart(cfg, b, u)
  {
    if Matching(cfg, u) {
      MatchGoesOn(cfg, b, u, c);
    } else {
      MatchingSnoc(cfg, u, c);
      if c == LF {
        MatchStarts(cfg, b, u);
      }
    }
  }

  lemma DelimiterLineHasNoCR(cfg: Config, u: string)
    requires cfg.Valid() && Matching(cfg, u)
    ensures !EndsWithCR(u)
  {
    var p := LastLine(u);
    if p != "" {
      assert u[|u| - |p|..][|p| - 1] == u[|u| - 1] == p[|p| - 1] == cfg.Line()[|p| - 1] == cfg.delim[|p| + 1];
    }
  }

  lemma MismatchMoves(cfg: Config, b: nat, u: string, c: char)
    requires cfg.Valid() && b <= 1 && TrackPos(cfg, b, u) < |cfg.delim|
    requires c != cfg.delim[TrackPos(cfg, b, u)]
    ensures c == LF ==> TrackPos(cfg, b, u + [c]) == 2 && TrackStart(cfg, b, u + [c]) == 1
    ensures c != LF && b == 1 && LF !in u ==>
              TrackPos(cfg, b, u + [c]) == TrackStart(cfg, b, u + [c]) == 1
    ensures c != LF && (b == 0 || LF in u) ==>
              TrackPos(cfg, b, u + [c]) == (if c == CR then 1 else 0) && TrackStart(cfg, b, u + [c]) == 0
  {
    MatchingSnoc(cfg, u, c);
    LastLineSnoc(u, c);
    var v := u + [c];
    if c == LF {
      assert v[..|v| - 1] == u;
      if Matching(cfg, u) && EndsWithCR(u) {
        DelimiterLineHasNoCR(cfg, u);
        assert false;
      }
    }
  }

  lemma PendingGrows(delim: string, e: string, start: nat, pos: nat)
    requires start <= pos < |delim|
    ensures e + delim[start..pos + 1] == e + delim[start..pos] + [delim[pos]]
  {
  }

  lemma MatchTracks(cfg: Config, b: nat, s0: State, u: string, e: string, s: State, c: char)
    requires cfg.Ascii() && b <= 1
    requires Tracks(cfg, b, s0, u, e, s)
    requires c == cfg.delim[s.pos] && s.pos + 1 < |cfg.delim|
    ensures Tracks(cfg, b, s0, u + [c], e, StepData(cfg, s, c))
  {
    MatchMoves(cfg, b, u, c);
    PendingGrows(cfg.delim, e, s.start, s.pos);
    assert Matches(c, cfg.delim[s.pos]);
    assert StepData(cfg, s, c) == s.(pos := s.pos + 1);
  }

  lemma DumpEmits(cfg: Config, s: State, e: string, u: string) returns (d: State)
    requires Valid(cfg, s) && s.phase.Data? && Emitted(cfg, s, e)
    requires e + cfg.delim[s.start..s.pos] == u
    ensures d == Dump(cfg, s) && Emitted(cfg, d, u)
    ensures SamePart(s, d)
  {
    d := Dump(cfg, s);
    PutAllKeeps(cfg, s, cfg.delim[s.start..s.pos]);
    PutAllEmits(cfg, s, e, cfg.delim[s.start..s.pos]);
  }

  /** How the closed form moves with one more byte. */
  lemma {:induction false} MatchMovesOrNot(cfg: Config, b: nat, u: string, c: char)
    requires cfg.Valid() && b <= 1 && TrackPos(cfg, b, u) < |cfg.delim|
    ensures var (start, pos) := (TrackStart(cfg, b, u), TrackPos(cfg, b, u));
            var (start', pos') := (TrackStart(cfg, b, u + [c]), TrackPos(cfg, b, u + [c]));
            if c == cfg.delim[pos] then start' == start && pos' == pos + 1
            else if c == LF then start' == 1 && pos' == 2
            else if start == pos == 1 then start' == pos' == 1
            else start' == 0 && pos' == if c == CR then 1 else 0
  {
    if c == cfg.delim[TrackPos(cfg, b, u)] {
      MatchMoves(cfg, b, u, c);
    } else {
      MismatchMoves(cfg, b, u, c);
    }
  }

  lemma DelimiterStarts(cfg: Config)
    requires cfg.Valid()
    ensures cfg.delim[0..1] == [CR] && cfg.delim[1..2] == [LF]
  {
  }

  lemma RestartMatches(cfg: Config, b: nat, s0: State, u: string, s: State, c: char)
    requires cfg.Ascii() && Valid(cfg, s) && s.phase.Data?
    requires SamePart(s0, s)
    requires Emitted(cfg, s, u) && s.start == s.pos
    requires s.start == 0 && (c == LF || c == CR)
    requires if c == LF then TrackPos(cfg, b, u + [c]) == 2 && TrackStart(cfg, b, u + [c]) == 1
             else TrackPos(cfg, b, u + [c]) == 1 && TrackStart(cfg, b, u + [c]) == 0
    ensures Tracks(cfg, b, s0, u + [c], u, StepData(cfg, s, c))
  {
    DelimiterStarts(cfg);
  }

  lemma RestartPuts(cfg: Config, b: nat, s0: State, u: string, s: State, c: char)
    requires cfg.Ascii() && Valid(cfg, s) && s.phase.Data?
    requires SamePart(s0, s)
    requires Emitted(cfg, s, u) && s.start == s.pos
    requires c != LF && !(c == CR && s.start == 0)
    requires TrackPos(cfg, b, u + [c]) == s.start && TrackStart(cfg, b, u + [c]) == s.start
    ensures Tracks(cfg, b, s0, u + [c], u + [c], StepData(cfg, s, c))
  {
    PutcEmits(cfg, s, u, c);
    assert u + [c] + "" == u + [c];
  }

  /** Reading `c` with nothing pending. */
  lemma RestartTracks(cfg: Config, b: nat, s0: State, u: string, s: State, c: char) returns (e': string)
    requires cfg.Ascii() && Valid(cfg, s) && s.phase.Data?
    requires SamePart(s0, s)
    requires Emitted(cfg, s, u) && s.start == s.pos
    requires s.start == 1 ==> c != LF
    requires if c == LF then TrackPos(cfg, b, u + [c]) == 2 && TrackStart(cfg, b, u + [c]) == 1
             else TrackPos(cfg, b, u + [c]) == (if s.start == 0 && c == CR then 1 else s.start)
                  && TrackStart(cfg, b, u + [c]) == s.start
    ensures Tracks(cfg, b, s0, u + [c], e', StepData(cfg, s, c))
  {
    if c == LF || (c == CR && s.start == 0) {
      e' := u;
      RestartMatches(cfg, b, s0, u, s, c);
    } else {
      e' := u + [c];
      RestartPuts(cfg, b, s0, u, s, c);
    }
  }

  lemma RereadTracks(cfg: Config, b: nat, s0: State, u: string, e: string, s: State, c: char)
    returns (e': string)
    requires cfg.Ascii() && b <= 1
    requires Tracks(cfg, b, s0, u, e, s)
    requires c != cfg.delim[s.pos] && s.start < s.pos
    ensures Tracks(cfg, b, s0, u + [c], e', StepData(cfg, s, c))
  {
    MatchMovesOrNot(cfg, b, u, c);
    var d := DumpEmits(cfg, s, e, u);
    assert !Matches(c, cfg.delim[s.pos]);
    assert StepData(cfg, s, c) == StepData(cfg, d, c);
    e' := RestartTracks(cfg, b, s0, u, d, c);
  }

  /** The delimiter has no byte at which a failed match could resume: re-reading one byte is enough. */
  lemma StepTracks(cfg: Config, b: nat, s0: State, u: string, e: string, s: State, c: char)
    returns (e': string)
    requires cfg.Ascii() && b <= 1
    requires Tracks(cfg, b, s0, u, e, s)
    requires !(c == cfg.delim[s.pos] && s.pos + 1 == |cfg.delim|)
    ensures Tracks(cfg, b, s0, u + [c], e', StepData(cfg, s, c))
  {
    if c == cfg.delim[s.pos] {
      MatchTracks(cfg, b, s0, u, e, s, c);
      e' := e;
    } else if s.pos == s.start {
      MatchMovesOrNot(cfg, b, u, c);
      assert e == u;
      e' := RestartTracks(cfg, b, s0, u, s, c);
    } else {
      e' := RereadTracks(cfg, b, s0, u, e, s, c);
    }
  }

  /** Entering the data state: the part's headers are read and nothing of its value yet. */
  ghost predicate Entering(cfg: Config, b: nat, s: State) {
    Valid(cfg, s) && s.phase.Data? && s.start == s.pos == b && s.output == "" && s.value == ""
  }

  lemma OccursAtEnd(u: string, p: string, c: char, i: nat)
    requires i <= |u| && u[i..] == p
    ensures OccursAt(p + [c], u + [c], i)
  {
    assert (u + [c])[i..] == u[i..] + [c];
  }

  /** A complete match is a real occurrence of LF "--" boundary. */
  lemma MatchOccurs(cfg: Config, b: nat, s0: State, u: string, e: string, s: State)
    requires b <= 1 && Tracks(cfg, b, s0, u, e, s)
    requires s.pos + 1 == |cfg.delim|
    ensures OccursAt(cfg.LfLine(), u + [cfg.delim[s.pos]], |u| + 1 - |cfg.LfLine()|)
  {
    var p, c := LastLine(u), cfg.delim[s.pos];
    var i := |u| + 1 - |cfg.LfLine()|;
    assert p == cfg.Line()[..|p|];
    assert cfg.LfLine() == [LF] + p + [c];
    assert u[i..] == [LF] + p by {
      assert u[i + 1..] == p;
    }
    OccursAtEnd(u, [LF] + p, c, i);
  }

  /** Byte conservation and the matcher's position, for every body part without a whole delimiter. */
  lemma {:induction false} DataPrefix(cfg: Config, b: nat, s0: State, u: string) returns (e: string)
    requires cfg.Ascii() && b <= 1 && Entering(cfg, b, s0)
    requires !Occurs(cfg.LfLine(), u)
    ensures Tracks(cfg, b, s0, u, e, Final(cfg, s0, u))
    decreases |u|
  {
    if u == "" {
      e := "";
      assert cfg.delim[b..b] == "";
    } else {
      var w, c := u[..|u| - 1], u[|u| - 1];
      assert u == w + [c];
      forall i: nat {
        OccursBefore(cfg.LfLine(), w, [c], i);
      }
      var e0 := DataPrefix(cfg, b, s0, w);
      var s := Final(cfg, s0, w);
      if c == cfg.delim[s.pos] && s.pos + 1 == |cfg.delim| {
        MatchOccurs(cfg, b, s0, w, e0, s);
        assert false;
      }
      e := StepTracks(cfg, b, s0, w, e0, s, c);
      RunSnoc(cfg, s0, w, c);
    }
  }

  /** The state right after a part entered in `s0` whose bytes before the delimiter's LF are `v`. */
  function PartDone(cfg: Config, b: nat, s0: State, v: string): State {
    var after := if StripsCR(b, v) then 0 else 1;
    s0.(phase := AfterBoundary, start := after, pos := after, output := "", value := "",
        name := "", contentType := "",
        params := InsertFirst(s0.params, s0.name, Take(Content(b, v), cfg.bufSize)))
  }

  lemma SplitAtLast(cfg: Config, v: string) returns (x: string, u: string, c: char)
    requires cfg.Valid()
    ensures x == cfg.LfLine()[1..|cfg.LfLine()| - 1] && c == cfg.delim[|cfg.delim| - 1]
    ensures u == v + [LF] + x && v + cfg.LfLine() == u + [c]
    ensures |u| == |v| + |cfg.delim| - 2
  {
    var l := cfg.LfLine();
    x, c := l[1..|l| - 1], l[|l| - 1];
    u := v + [LF] + x;
    assert [LF] + x + [c] == l;
  }

  lemma NotBeforeTheEnd(l: string, v: string, u: string, c: char)
    requires v + l == u + [c] && Find(l, v + l) == Some(|v|)
    ensures !Occurs(l, u)
  {
    forall i: nat {
      OccursBefore(l, u, [c], i);
    }
  }

  lemma AtLastByte(cfg: Config, b: nat, v: string, x: string, u: string)
    requires cfg.Valid() && x == cfg.LfLine()[1..|cfg.LfLine()| - 1] && u == v + [LF] + x
    ensures TrackPos(cfg, b, u) + 1 == |cfg.delim|
    ensures TrackStart(cfg, b, u) == if StripsCR(b, v) then 0 else 1
    ensures u[..|v|] == v
  {
    assert x == cfg.Line()[..|x|];
    LastLineOf(v, x);
    assert LF in u by { assert u[|v|] == LF; }
    assert u[..|u| - 1 - |x|] == v;
  }

  lemma ContentEmitted(cfg: Config, b: nat, s0: State, v: string, u: string, e: string, s: State)
    requires cfg.Ascii() && b <= 1 && s0.output == "" && Tracks(cfg, b, s0, u, e, s)
    requires s.pos + 1 == |cfg.delim| && |u| == |v| + |cfg.delim| - 2 && u[..|v|] == v
    requires s.start == if StripsCR(b, v) then 0 else 1
    ensures e == Content(b, v)
  {
    assert |e| == |v| + s.start - 1;
    assert e == u[..|e|];
  }

  /** The byte that completes the delimiter. */
  lemma Completes(cfg: Config, b: nat, s0: State, v: string, u: string, e: string, s: State)
    requires cfg.Ascii() && b <= 1 && s0.output == "" && Tracks(cfg, b, s0, u, e, s)
    requires s.pos + 1 == |cfg.delim| && |u| == |v| + |cfg.delim| - 2 && u[..|v|] == v
    requires s.start == if StripsCR(b, v) then 0 else 1
    ensures Step(cfg, s, cfg.delim[s.pos]).0 == PartDone(cfg, b, s0, v)
  {
    ContentEmitted(cfg, b, s0, v, u, e, s);
    assert Flush(s).value == Take(e, cfg.bufSize) && Flush(s).output == "";
    assert Matches(cfg.delim[s.pos], cfg.delim[s.pos]);
  }

  /**
   The incremental matcher refines naive search: if the first LF "--" boundary in what follows starts
   after `v`, the part ends exactly there, and stores `Content(b, v)` cut to the buffer size.
   */
  lemma {:induction false} DataRefinesSearch(cfg: Config, b: nat, s0: State, v: string)
    requires cfg.Ascii() && b <= 1 && Entering(cfg, b, s0)
    requires Find(cfg.LfLine(), v + cfg.LfLine()) == Some(|v|)
    ensures Final(cfg, s0, v + cfg.LfLine()) == PartDone(cfg, b, s0, v)
  {
    var x, u, c := SplitAtLast(cfg, v);
    NotBeforeTheEnd(cfg.LfLine(), v, u, c);
    var e := DataPrefix(cfg, b, s0, u);
    AtLastByte(cfg, b, v, x, u);
    var s := Final(cfg, s0, u);
    Completes(cfg, b, s0, v, u, e, s);
    RunSnoc(cfg, s0, u, c);
  }
}
