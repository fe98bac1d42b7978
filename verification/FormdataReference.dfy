/**
 A whole-body reading of a form: no machine state, only searches over the text that is left.
 FormdataRefinement.dfy proves that the byte machine computes it, for every body.
 */
module FormdataReference {
  import opened Text
  import opened FormdataMachine
  import opened FormdataData

  /** What a request sees of a parser: the parameters, and whether the closing delimiter (or an error) was met. */
  datatype Outcome = Outcome(params: map<string, string>, finished: bool)

  function CommonPrefix(l: string, t: string): (k: nat)
    ensures k <= |l| && k <= |t| && l[..k] == t[..k]
    ensures k < |l| && k < |t| ==> l[k] != t[k]
  {
    if l == "" || t == "" || l[0] != t[0] then 0 else 1 + CommonPrefix(l[1..], t[1..])
  }

  /** A position in a tail, as one in the whole text. */
  function Shifted(a: nat, r: Option<nat>): Option<nat> {
    if r.None? then None else Some(a + r.value)
  }

  /**
   Where the first recognised delimiter line ends. An attempt that fails gives up the byte it failed
   at, so an occurrence that overlaps a failed attempt is passed over.
   */
  function SeekEnd(l: string, t: string): (r: Option<nat>)
    requires l != ""
    ensures r.Some? ==> |l| <= r.value <= |t|
    decreases |t|
  {
    var k := CommonPrefix(l, t);
    if k == |l| then Some(k)
    else if k == |t| then None
    else Shifted(k + 1, SeekEnd(l, t[k + 1..]))
  }

  function DropCR(t: string): (r: string)
    ensures CR !in r && |r| <= |t|
    ensures CR !in t ==> r == t
  {
    if t == "" then "" else (if t[0] == CR then "" else [t[0]]) + DropCR(t[1..])
  }

  predicate Fits(cfg: Config, line: string) {
    line == "" || |line| < cfg.maxHeader
  }

  /** The value runs to the first LF "--" boundary. */
  function PartData(cfg: Config, b: nat, params: map<string, string>, name: string, t: string): Outcome
    requires cfg.Valid()
    decreases |t|, 1
  {
    match Find(cfg.LfLine(), t)
    case None => Outcome(params, false)
    case Some(i) => PartEnds(cfg, b, params, name, t, i)
  }

  /** What a complete header line asks for, with `t` after it. */
  function AfterLine(cfg: Config, b: nat, params: map<string, string>, name: string, line: string, t: string): Outcome
    requires cfg.Valid()
    decreases |t|, 2
  {
    if line == "" then PartData(cfg, b, params, name, t)
    else
      match cfg.parseHeader(line)
      case Err(_) => Outcome(params, true)
      case Ok(h) => PartHeaders(cfg, b, params, if h.FieldName? then h.name else name, t)
  }

  /** Header lines up to an empty one. CRs are dropped wherever they stand in a line. */
  function PartHeaders(cfg: Config, b: nat, params: map<string, string>, name: string, t: string): Outcome
    requires cfg.Valid()
    decreases |t|, 0
  {
    var j := CSpan(t, {LF});
    var line := DropCR(t[..j]);
    if !Fits(cfg, line) then Outcome(params, true)
    else if j == |t| then Outcome(params, false)
    else AfterLine(cfg, b, params, name, line, t[j + 1..])
  }

  /** After a delimiter: anything up to a line feed is skipped, but a dash ends the form. */
  function AfterDelimiter(cfg: Config, b: nat, params: map<string, string>, t: string): Outcome
    requires cfg.Valid()
    decreases |t|, 0
  {
    var k := CSpan(t, {LF, '-'});
    if k == |t| then Outcome(params, false)
    else if t[k] == '-' then Outcome(params, true)
    else PartHeaders(cfg, b, params, "", t[k + 1..])
  }

  /** The part ends at the delimiter at `i`. */
  function PartEnds(cfg: Config, b: nat, params: map<string, string>, name: string, t: string, i: nat): Outcome
    requires cfg.Valid() && i + |cfg.LfLine()| <= |t|
    decreases |t|, 0
  {
    AfterDelimiter(cfg, if StripsCR(b, t[..i]) then 0 else 1,
                   InsertFirst(params, name, Take(Content(b, t[..i]), cfg.bufSize)),
                   t[i + |cfg.LfLine()|..])
  }

  function Body(cfg: Config, params: map<string, string>, t: string): Outcome
    requires cfg.Valid()
  {
    match SeekEnd(cfg.Line(), t)
    case None => Outcome(params, false)
    case Some(n) => AfterDelimiter(cfg, 0, params, t[n..])
  }

  lemma SeekEndAfterMismatch(l: string, t: string, k: nat)
    requires k == CommonPrefix(l, t) && k < |l| && k < |t|
    ensures SeekEnd(l, t) == Shifted(k + 1, SeekEnd(l, t[k + 1..]))
  {
  }

  lemma {:induction false} NotStuck(l: string, t: string)
    requires l != "" && SeekEnd(l, t).Some?
    ensures CommonPrefix(l, t) == |l| || CommonPrefix(l, t) < |t|
  {
  }

  lemma {:induction false} FoundAtOnce(l: string, t: string)
    requires l != "" && CommonPrefix(l, t) == |l|
    ensures SeekEnd(l, t) == Some(|l|) && OccursAt(l, t, 0)
  {
    assert l[..|l|] == l == t[..|l|];
  }

  lemma FoundHere(l: string, t: string, a: nat)
    requires l != "" && a <= |t| && CommonPrefix(l, t[a..]) == |l|
    ensures SeekEnd(l, t[a..]) == Some(|l|) && OccursAt(l, t, a)
  {
    FoundAtOnce(l, t[a..]);
    OccursInTail(l, t, a, 0);
  }

  lemma {:induction false} MismatchAt(l: string, t: string, a: nat, k: nat)
    requires a <= |t| && k == CommonPrefix(l, t[a..]) && k < |l| && a + k < |t|
    ensures SeekEnd(l, t[a..]) == Shifted(k + 1, SeekEnd(l, t[a + k + 1..]))
  {
    SeekEndAfterMismatch(l, t[a..], k);
    assert t[a..][k + 1..] == t[a + k + 1..];
  }

  lemma {:induction false} SoundFrom(l: string, t: string, a: nat) returns (i: nat)
    requires l != "" && a <= |t| && SeekEnd(l, t[a..]).Some?
    ensures i + |l| == a + SeekEnd(l, t[a..]).value && OccursAt(l, t, i)
    decreases |t| - a
  {
    hide SeekEnd, CommonPrefix;
    var k := CommonPrefix(l, t[a..]);
    NotStuck(l, t[a..]);
    if k == |l| {
      FoundHere(l, t, a);
      i := a;
    } else {
      MismatchAt(l, t, a, k);
      i := SoundFrom(l, t, a + k + 1);
    }
  }

  /** A recognised match in the preamble is a real delimiter line. */
  lemma {:induction false} SeekIsSound(l: string, t: string, n: nat)
    requires l != "" && SeekEnd(l, t) == Some(n)
    ensures |l| <= n && OccursAt(l, t, n - |l|)
  {
    assert t[0..] == t;
    var i := SoundFrom(l, t, 0);
  }

  /** A failed attempt cannot run across a line feed, so it ends before the next line starts. */
  lemma LineStartSurvives(l: string, t: string, i: nat, k: nat)
    requires k < |l| && k < |t| && l[..k] == t[..k] && l[k] != t[k]
    requires LF !in l && OccursAt(l, t, i) && (i == 0 || t[i - 1] == LF)
    ensures k < i
  {
    assert forall j :: 0 <= j < k ==> l[..k][j] == l[j] && t[..k][j] == t[j];
    assert t[i..i + |l|][k] == l[k];
  }

  lemma SurvivesAt(l: string, t: string, a: nat, i: nat)
    requires LF !in l && a <= i && OccursAt(l, t, i) && (i == 0 || t[i - 1] == LF)
    requires CommonPrefix(l, t[a..]) < |l|
    ensures a + CommonPrefix(l, t[a..]) < i
  {
    OccursInTail(l, t, a, i - a);
    LineStartSurvives(l, t[a..], i - a, CommonPrefix(l, t[a..]));
  }

  lemma {:induction false} CompleteFrom(l: string, t: string, a: nat, i: nat)
    requires l != "" && LF !in l
    requires a <= i && OccursAt(l, t, i) && (i == 0 || t[i - 1] == LF)
    ensures var r := SeekEnd(l, t[a..]);
            r.Some? && a + r.value <= i + |l|
    decreases i - a
  {
    hide SeekEnd, CommonPrefix;
    var k := CommonPrefix(l, t[a..]);
    if k == |l| {
      FoundHere(l, t, a);
    } else {
      SurvivesAt(l, t, a, i);
      MismatchAt(l, t, a, k);
      CompleteFrom(l, t, a + k + 1, i);
    }
  }

  /** A delimiter at the start of the body or of a line is never passed over. */
  lemma {:induction false} SeekIsComplete(l: string, t: string, i: nat)
    requires l != "" && LF !in l
    requires OccursAt(l, t, i) && (i == 0 || t[i - 1] == LF)
    ensures SeekEnd(l, t).Some? && SeekEnd(l, t).value <= i + |l|
  {
    assert t[0..] == t;
    CompleteFrom(l, t, 0, i);
  }

  /** So a delimiter at the start of a line is the one recognised if none occurs before it. */
  lemma SeekIsFirst(l: string, t: string, k: nat)
    requires l != "" && LF !in l
    requires OccursAt(l, t, k) && (k == 0 || t[k - 1] == LF) && forall i: nat :: i < k ==> !OccursAt(l, t, i)
    ensures SeekEnd(l, t) == Some(k + |l|)
  {
    SeekIsComplete(l, t, k);
    SeekIsSound(l, t, SeekEnd(l, t).value);
  }
}
