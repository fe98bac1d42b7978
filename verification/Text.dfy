/** Results, and the C and C++ string searches the server relies on. An octet is a char. */
module Text {
  datatype Option<+T> = None | Some(value: T)

  datatype Result<+T, +E> = Ok(value: T) | Err(error: E)

  const CR := '\r'
  const LF := '\n'
  const NUL := '\0'

  /** `strcspn`: how many leading characters of `t` lie outside `stop`. */
  function CSpan(t: string, stop: set<char>): (n: nat)
    ensures n <= |t|
    ensures forall i :: 0 <= i < n ==> t[i] !in stop
    ensures n < |t| ==> t[n] in stop
  {
    if t == [] || t[0] in stop then 0 else 1 + CSpan(t[1..], stop)
  }

  lemma {:induction false} SpanOver(a: string, b: string, stop: set<char>)
    requires forall i :: 0 <= i < |a| ==> a[i] !in stop
    requires b == "" || b[0] in stop
    ensures CSpan(a + b, stop) == |a|
  {
    if a == "" {
      assert a + b == b;
    } else {
      assert (a + b)[1..] == a[1..] + b;
      SpanOver(a[1..], b, stop);
    }
  }

  /** `strspn(t, " ")`. */
  function SpaceSpan(t: string): (n: nat)
    ensures n <= |t|
    ensures forall i :: 0 <= i < n ==> t[i] == ' '
    ensures n < |t| ==> t[n] != ' '
  {
    if t == [] || t[0] != ' ' then 0 else 1 + SpaceSpan(t[1..])
  }

  /** How many leading characters are decimal digits. */
  function DigitSpan(t: string): (n: nat)
    ensures n <= |t|
    ensures forall i :: 0 <= i < n ==> '0' <= t[i] <= '9'
    ensures n < |t| ==> !('0' <= t[n] <= '9')
  {
    if t == "" || !('0' <= t[0] <= '9') then 0 else 1 + DigitSpan(t[1..])
  }

  lemma {:induction false} DigitsOver(a: string, b: string)
    requires forall i :: 0 <= i < |a| ==> '0' <= a[i] <= '9'
    requires b == "" || !('0' <= b[0] <= '9')
    ensures DigitSpan(a + b) == |a|
  {
    if a == "" {
      assert a + b == b;
    } else {
      assert (a + b)[1..] == a[1..] + b;
      DigitsOver(a[1..], b);
    }
  }

  function NatValue(ds: string): int {
    if ds == "" then 0 else NatValue(ds[..|ds| - 1]) * 10 + (ds[|ds| - 1] as int - '0' as int)
  }

  const WHITE := {' ', '\t', LF, '\U{0b}', '\U{0c}', CR}

  function WhiteSpan(t: string): (n: nat)
    ensures n <= |t|
    ensures forall i :: 0 <= i < n ==> t[i] in WHITE
    ensures n < |t| ==> t[n] !in WHITE
  {
    if t == "" || t[0] !in WHITE then 0 else 1 + WhiteSpan(t[1..])
  }

  const LONG_MAX: int := 0x7fff_ffff_ffff_ffff

  function LeadingNat(t: string): int {
    NatValue(t[..DigitSpan(t)])
  }

  function Clamped(n: int): int {
    if n > LONG_MAX then LONG_MAX else if n < -LONG_MAX - 1 then -LONG_MAX - 1 else n
  }

  function SignedOf(t: string): int {
    if t == "" || (t[0] != '+' && t[0] != '-') then Clamped(LeadingNat(t))
    else if t[0] == '+' then Clamped(LeadingNat(t[1..]))
    else Clamped(-LeadingNat(t[1..]))
  }

  /** `strtol(t, NULL, 10)`: what does not fit is clamped. */
  function LongOf(t: string): int {
    SignedOf(t[WhiteSpan(t)..])
  }

  /** What C sees of a buffer that holds `t` followed by a NUL. */
  function CString(t: string): string {
    t[..CSpan(t, {NUL})]
  }

  predicate OccursAt(pat: string, t: string, i: nat) {
    i + |pat| <= |t| && t[i..i + |pat|] == pat
  }

  ghost predicate Occurs(pat: string, t: string) {
    exists i: nat :: OccursAt(pat, t, i)
  }

  /** Text that follows does not change what occurs before it. */
  lemma OccursBefore(pat: string, a: string, b: string, i: nat)
    ensures OccursAt(pat, a, i) ==> OccursAt(pat, a + b, i)
    ensures OccursAt(pat, a + b, i) && i + |pat| <= |a| ==> OccursAt(pat, a, i)
  {
    if i + |pat| <= |a| {
      assert (a + b)[i..i + |pat|] == a[i..i + |pat|];
    }
  }

  /** Occurrences in a tail of the text. */
  lemma {:induction false} OccursInTail(pat: string, t: string, a: nat, i: nat)
    requires a <= |t|
    ensures OccursAt(pat, t[a..], i) <==> OccursAt(pat, t, a + i)
  {
    if a + i + |pat| <= |t| {
      assert t[a..][i..i + |pat|] == t[a + i..a + i + |pat|];
    }
  }

  /** Naive search: the first position at which `pat` occurs in `t`. */
  function Find(pat: string, t: string): (r: Option<nat>)
    ensures r.Some? ==> OccursAt(pat, t, r.value)
    ensures r.Some? ==> forall j: nat :: j < r.value ==> !OccursAt(pat, t, j)
    ensures r.None? ==> forall j: nat :: !OccursAt(pat, t, j)
  {
    if |t| < |pat| then None
    else if t[..|pat|] == pat then Some(0)
    else
      var r := Find(pat, t[1..]);
      assert forall j: nat :: 0 < j ==> (OccursAt(pat, t, j) <==> OccursAt(pat, t[1..], j - 1)) by {
        forall j: nat | 0 < j ensures OccursAt(pat, t, j) <==> OccursAt(pat, t[1..], j - 1) {
          OccursInTail(pat, t, 1, j - 1);
        }
      }
      if r.None? then None else Some(r.value + 1)
  }

  function Lower(c: char): char {
    if 'A' <= c <= 'Z' then c - 'A' + 'a' else c
  }

  /** `!strncasecmp(pat, t, strlen(pat))`. */
  predicate HasPrefixNoCase(pat: string, t: string) {
    |pat| <= |t| && forall i :: 0 <= i < |pat| ==> Lower(pat[i]) == Lower(t[i])
  }

  /** `t` is `lower`, each letter of it in either case. */
  predicate SpelledAs(t: string, lower: string) {
    |t| == |lower| && forall i :: 0 <= i < |t| ==>
      t[i] == lower[i] || ('a' <= lower[i] <= 'z' && t[i] as int == lower[i] as int - 32)
  }

  lemma PrefixIsSpelled(pat: string, lower: string, t: string)
    requires |lower| == |pat| && forall i :: 0 <= i < |pat| ==> lower[i] == Lower(pat[i])
    ensures HasPrefixNoCase(pat, t) <==> |pat| <= |t| && SpelledAs(t[..|pat|], lower)
  {
  }

  lemma Regroup(a: string, b: string, c: string)
    ensures a + b + c == a + (b + c)
  {
  }

  lemma AppendNothing(a: string)
    ensures a + "" == a
  {
  }

  function Take<T>(s: seq<T>, n: nat): seq<T> {
    if |s| <= n then s else s[..n]
  }

  /** `std::map::insert`: a key that is already present keeps its value. */
  function InsertFirst<K, V>(m: map<K, V>, k: K, v: V): map<K, V> {
    if k in m then m else m[k := v]
  }
}
