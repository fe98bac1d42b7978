/** What `upload_parse_content_type` makes of every Content-Type of a request. */
module FormdataContentType {
  import opened Text
  import opened FormdataHeaders
  import opened FormdataParser

  const STOPS := {' ', ';', CR, LF}

  predicate IsFormType(t: string) {
    19 <= |t| && SpelledAs(t[..19], "multipart/form-data")
  }

  /** The `k`th character is the first semicolon. */
  predicate SemicolonAt(t: string, k: nat) {
    k < |t| && t[k] == ';' && ';' !in t[..k]
  }

  /** The first "boundary=" after the semicolon at `k` is at `i`. */
  ghost predicate ParameterAt(t: string, k: nat, i: nat) {
    k <= i && OccursAt("boundary=", t, i) && forall j: nat :: k <= j < i ==> !OccursAt("boundary=", t, j)
  }

  lemma FormTypePrefix(t: string)
    ensures HasPrefixNoCase("multipart/form-data", t) <==> IsFormType(t)
  {
    PrefixIsSpelled("multipart/form-data", "multipart/form-data", t);
  }

  lemma SemicolonIs(t: string, k: nat)
    requires SemicolonAt(t, k)
    ensures CSpan(t, {';'}) == k
  {
    assert t == t[..k] + t[k..];
    SpanOver(t[..k], t[k..], {';'});
  }

  lemma FindParameter(t: string, k: nat)
    requires k <= |t|
    ensures var r := Find("boundary=", t[k..]);
            && (r.Some? ==> ParameterAt(t, k, k + r.value))
            && (r.None? ==> forall i: nat :: !ParameterAt(t, k, i))
  {
    var r := Find("boundary=", t[k..]);
    forall j: nat ensures OccursAt("boundary=", t[k..], j) <==> OccursAt("boundary=", t, k + j) {
      OccursInTail("boundary=", t, k, j);
    }
    forall j: nat | k <= j && (r.None? || j < k + r.value) ensures !OccursAt("boundary=", t, j) {
      assert !OccursAt("boundary=", t[k..], j - k);
    }
  }

  lemma {:induction false} OneParameter(t: string, k: nat, i: nat)
    requires k <= |t| && ParameterAt(t, k, i)
    ensures Find("boundary=", t[k..]) == Some(i - k)
  {
    FindParameter(t, k);
  }

  /** Refused for want of a boundary exactly when there is no semicolon. */
  lemma {:induction false} NoBoundaryIff(t: string)
    ensures BoundaryOf(t) == Err(NoBoundary) <==> ';' !in t
  {
  }

  /** Refused as another media type exactly when it does not begin with "multipart/form-data", in any case. */
  lemma {:induction false} NotMultipartIff(t: string)
    ensures BoundaryOf(t) == Err(NotMultipart) <==> ';' in t && !IsFormType(t)
  {
    hide HasPrefixNoCase;
    FormTypePrefix(t);
  }

  lemma {:induction false} SpanIsZero(t: string, stops: set<char>)
    ensures CSpan(t, stops) == 0 <==> t == "" || t[0] in stops
  {
  }

  lemma {:induction false} BoundaryFrom(t: string, k: nat)
    requires SemicolonAt(t, k) && IsFormType(t)
    ensures var r := Find("boundary=", t[k..]);
            var start := if r.None? then 8 else k + r.value + 9;
            var n := CSpan(t[start..], STOPS);
            BoundaryOf(t) == if n == 0 then Err(EmptyBoundary) else Ok(t[start..][..n])
  {
    hide HasPrefixNoCase, CSpan, Find;
    SemicolonIs(t, k);
    FormTypePrefix(t);
  }

  lemma NinthIsLetter(t: string)
    requires IsFormType(t)
    ensures 8 < |t| && t[8] in {'t', 'T'}
  {
    assert t[..19][8] == t[8];
    assert "multipart/form-data"[8] == 't';
  }

  /** Without a "boundary=" the text from offset 8 on is read, and that starts with a letter. */
  lemma {:induction false} NoParameterNotEmpty(t: string, k: nat)
    requires SemicolonAt(t, k) && IsFormType(t) && Find("boundary=", t[k..]).None?
    ensures BoundaryOf(t) != Err(EmptyBoundary)
  {
    hide Find, IsFormType, CSpan;
    BoundaryFrom(t, k);
    SpanIsZero(t[8..], STOPS);
    NinthIsLetter(t);
    assert t[8..][0] == t[8];
  }

  lemma {:induction false} ParameterEmptyIff(t: string, k: nat, i: nat)
    requires SemicolonAt(t, k) && IsFormType(t) && k <= i && i + 9 <= |t| && Find("boundary=", t[k..]) == Some(i - k)
    ensures BoundaryOf(t) == Err(EmptyBoundary) <==> i + 9 == |t| || t[i + 9] in STOPS
  {
    hide Find, IsFormType;
    BoundaryFrom(t, k);
    SpanIsZero(t[i + 9..], STOPS);
    assert i + 9 < |t| ==> t[i + 9..][0] == t[i + 9];
  }

  lemma OnlyParameter(t: string, k: nat, i: nat)
    requires ParameterAt(t, k, i)
    ensures forall j: nat :: ParameterAt(t, k, j) ==> j == i
  {
  }

  /** Refused as empty exactly when nothing, or a stop, follows the first "boundary=". */
  lemma {:induction false} EmptyBoundaryIff(t: string, k: nat)
    requires SemicolonAt(t, k)
    ensures BoundaryOf(t) == Err(EmptyBoundary) <==>
            IsFormType(t) && exists i: nat :: ParameterAt(t, k, i) && (i + 9 == |t| || t[i + 9] in {' ', ';', CR, LF})
  {
    hide BoundaryOf, Find, IsFormType, CSpan;
    NotMultipartIff(t);
    FindParameter(t, k);
    var r := Find("boundary=", t[k..]);
    if IsFormType(t) {
      if r.None? {
        NoParameterNotEmpty(t, k);
      } else {
        ParameterEmptyIff(t, k, k + r.value);
        OnlyParameter(t, k, k + r.value);
      }
    }
  }

  /** Otherwise the boundary is what follows the first "boundary=" up to a stop or the end. */
  lemma {:induction false} BoundaryGiven(t: string, k: nat, i: nat, b: string, after: string)
    requires SemicolonAt(t, k) && IsFormType(t) && ParameterAt(t, k, i) && t[i + 9..] == b + after
    requires b != "" && (forall j :: 0 <= j < |b| ==> b[j] !in {' ', ';', CR, LF})
    requires after != "" ==> after[0] in {' ', ';', CR, LF}
    ensures BoundaryOf(t) == Ok(b)
  {
    hide Find, IsFormType, CSpan, BoundaryOf, ParameterAt;
    OneParameter(t, k, i);
    SpanOver(b, after, STOPS);
    BoundaryFrom(t, k);
    assert (b + after)[..|b|] == b;
  }
}
