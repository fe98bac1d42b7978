/** JSON printing is uniquely decodable: the reader undoes it, whatever text follows. */
module JsonProofs {
  import opened Text
  import opened JsonText

  predicate StartsWithDigit(t: string) {
    t != "" && '0' <= t[0] <= '9'
  }

  /** What the reader should return: the value and what follows it, or nothing if it is not to be accepted. */
  function Accepted<T>(ok: bool, value: T, rest: string): Option<(T, string)> {
    if ok then Some((value, rest)) else None
  }

  /** A character is written as itself, or after a backslash as what the reader turns back into it. */
  lemma EscapeShape(c: char)
    ensures var e := EscapeChar(c);
            || (e == [c] && c != '"' && c != '\\' && c !in {BS, FF, '\n', '\r', '\t'})
            || (|e| == 2 && e == ['\\', e[1]] && Unescape(e[1]) == Some(c)
                && (c >= ' ' || c in {BS, FF, '\n', '\r', '\t'}))
  {
  }

  lemma OneEscaped(c: char)
    ensures Escape([c]) == EscapeChar(c)
  {
    assert [c][1..] == "" && EscapeChar(c) + "" == EscapeChar(c);
  }

  /** Every character as it is written: eight with a backslash, the slash among them, and the rest as they are. */
  lemma EscapedAs(s: string, c: char)
    ensures Escape([c] + s) == Escape([c]) + Escape(s)
    ensures Escape("\"") == "\\\"" && Escape("\\") == "\\\\" && Escape("/") == "\\/"
    ensures Escape(['\U{08}']) == "\\b" && Escape(['\U{0C}']) == "\\f"
    ensures Escape("\n") == "\\n" && Escape("\r") == "\\r" && Escape("\t") == "\\t"
    ensures c !in {'"', '\\', '/', '\U{08}', '\U{0C}', '\n', '\r', '\t'} ==> Escape([c]) == [c]
  {
    OneEscaped('"');
    OneEscaped('\\');
    OneEscaped('/');
    OneEscaped(BS);
    OneEscaped(FF);
    OneEscaped('\n');
    OneEscaped('\r');
    OneEscaped('\t');
    OneEscaped(c);
    assert ([c] + s)[1..] == s;
  }

  /** How many leading octets are not ASCII. */
  function HighSpan(t: string): (n: nat)
    ensures n <= |t|
    ensures forall i :: 0 <= i < n ==> t[i] as int > 0x7F
    ensures n < |t| ==> t[n] as int <= 0x7F
  {
    if t == "" || t[0] as int <= 0x7F then 0 else 1 + HighSpan(t[1..])
  }

  /** A sequence of UTF-8 does not reach beyond the octets that are not ASCII. */
  lemma Utf8LengthLocal(s: string, t: string, n: nat)
    requires 1 <= n <= |s| && n <= |t|
    requires forall i :: 0 <= i < n ==> s[i] == t[i] && s[i] as int > 0x7F
    requires (n < |s| ==> s[n] as int <= 0x7F) && (n < |t| ==> t[n] as int <= 0x7F)
    ensures Utf8Length(s) == Utf8Length(t) <= n
  {
    assert s[0] == t[0];
    assert n > 1 ==> s[1] == t[1];
    assert n > 2 ==> s[2] == t[2];
    assert n > 3 ==> s[3] == t[3];
  }

  lemma HighChar(c: char)
    requires c as int > 0x7F
    ensures EscapeChar(c) == [c]
  {
  }

  lemma {:induction false} HighCons(s: string, tail: string, k: nat, e: string)
    requires s != "" && s[1..] == tail && s[0] as int > 0x7F && k <= |tail|
    requires Escape(tail) == tail[..k] + e
    ensures Escape(s) == s[..k + 1] + e
  {
    HighChar(s[0]);
    assert s[..k + 1] == [s[0]] + tail[..k];
    Regroup([s[0]], tail[..k], e);
  }

  /** Octets that are not ASCII are written as they are. */
  lemma {:induction false} HighEscape(s: string, k: nat)
    requires k <= |s| && forall i :: 0 <= i < k ==> s[i] as int > 0x7F
    ensures Escape(s) == s[..k] + Escape(s[k..])
  {
    if k == 0 {
      assert s[0..] == s;
    } else {
      HighEscape(s[1..], k - 1);
      assert s[1..][k - 1..] == s[k..];
      HighCons(s, s[1..], k - 1, Escape(s[k..]));
    }
  }

  lemma HighText(s: string, k: nat, u: string)
    requires k <= |s| && forall i :: 0 <= i < k ==> s[i] as int > 0x7F
    ensures var t := Escape(s) + u;
            |t| >= k && t[..k] == s[..k] && t[k..] == Escape(s[k..]) + u
  {
    HighEscape(s, k);
    Regroup(s[..k], Escape(s[k..]), u);
  }

  lemma AsciiEscape(s: string, u: string)
    requires u != "" && u[0] == '"' && (s != "" ==> s[0] as int <= 0x7F)
    ensures (Escape(s) + u)[0] as int <= 0x7F
  {
    if s != "" {
      EscapeShape(s[0]);
    }
  }

  lemma HighUnit(s: string, u: string)
    requires u != "" && u[0] == '"' && s != "" && s[0] as int > 0x7F
    ensures var t, k := Escape(s) + u, Utf8Length(s);
            Utf8Length(t) == k && t[..k] == s[..k] && t[k..] == Escape(s[k..]) + u && t[0] == s[0]
    ensures forall i :: 0 <= i < Utf8Length(s) ==> s[i] as int > 0x7F
  {
    var n, t := HighSpan(s), Escape(s) + u;
    HighText(s, n, u);
    AsciiEscape(s[n..], u);
    assert t[n] == t[n..][0];
    assert forall i :: 0 <= i < n ==> t[i] == t[..n][i] == s[..n][i] == s[i];
    Utf8LengthLocal(s, t, n);
    HighText(s, Utf8Length(s), u);
  }

  lemma EscapesSplit(s: string, k: nat)
    requires k <= |s|
    ensures EscapesSuffice(s) <==> EscapesSuffice(s[..k]) && EscapesSuffice(s[k..])
  {
    assert s == s[..k] + s[k..];
  }

  lemma HighReadsBack(s: string, t: string, u: string)
    requires u != "" && s != "" && s[0] as int > 0x7F
    requires var k := Utf8Length(s);
             && 0 < k <= |t| && Utf8Length(t) == k && t[..k] == s[..k] && t[0] == s[0]
             && ReadChars(true, t[k..]) == Accepted(CleanString(s[k..]), s[k..], u[1..])
    ensures ReadChars(true, t) == Accepted(CleanString(s[Utf8Length(s)..]), s, u[1..])
  {
    var k := Utf8Length(s);
    assert s[..k] + s[k..] == s;
  }

  lemma CharReadsBack(strict: bool, c: char, t: string)
    requires strict ==> c as int <= 0x7F
    ensures ReadChars(strict, EscapeChar(c) + t) ==
              var r := ReadChars(strict, t);
              if r.None? || (strict && !EscapesSuffice([c])) then None else Some(([c] + r.value.0, r.value.1))
  {
    var e := EscapeChar(c);
    EscapeShape(c);
    assert EscapesSuffice([c]) <==> [c][0] >= ' ' || [c][0] in {BS, FF, '\n', '\r', '\t'};
    if |e| == 1 {
      assert ([c] + t)[1..] == t && ([c] + t)[..1] == [c];
    } else {
      assert (['\\', e[1]] + t)[2..] == t;
    }
  }

  /** An escaped string is read back up to the quote that ends it, and to no quote before. */
  lemma {:induction false} CharsReadBack(strict: bool, s: string, u: string)
    requires u != "" && u[0] == '"'
    ensures ReadChars(strict, Escape(s) + u) == Accepted(!strict || CleanString(s), s, u[1..])
    decreases |s|
  {
    if s == "" {
      assert Escape(s) + u == u;
    } else if strict && s[0] as int > 0x7F {
      var k := Utf8Length(s);
      HighUnit(s, u);
      EscapesSplit(s, k);
      if k > 0 {
        hide ReadChars, Escape, Utf8Length;
        CharsReadBack(strict, s[k..], u);
        HighReadsBack(s, Escape(s) + u, u);
      }
    } else {
      var t := Escape(s[1..]) + u;
      CharsReadBack(strict, s[1..], u);
      Regroup(EscapeChar(s[0]), Escape(s[1..]), u);
      CharReadsBack(strict, s[0], t);
      EscapesSplit(s, 1);
      assert s[..1] == [s[0]];
      assert [s[0]] + s[1..] == s;
    }
  }

  lemma {:induction false} DigitsReadBack(n: nat)
    ensures NatValue(NatText(n)) == n
  {
    var ds := NatText(n);
    if n >= 10 {
      DigitsReadBack(n / 10);
      assert ds[..|ds| - 1] == NatText(n / 10);
    } else {
      assert ds == [Digit(n)] && ds[..0] == "";
    }
  }

  lemma {:induction false} NoLeadingZero(n: nat)
    ensures forall i :: 0 <= i < |NatText(n)| ==> '0' <= NatText(n)[i] <= '9'
    ensures NatText(n) != "" && (n > 0 ==> NatText(n)[0] != '0') && (n == 0 ==> NatText(n) == "0")
  {
    if n >= 10 {
      NoLeadingZero(n / 10);
    }
  }

  lemma NatReadsBack(n: nat, rest: string)
    requires !StartsWithDigit(rest)
    ensures ReadNat(NatText(n) + rest) == Some((n, rest))
  {
    var ds := NatText(n);
    DigitsReadBack(n);
    NoLeadingZero(n);
    DigitsOver(ds, rest);
    assert (ds + rest)[..|ds|] == ds && (ds + rest)[|ds|..] == rest;
  }

  lemma NatStartsWithDigit(n: nat, rest: string)
    ensures StartsWithDigit(NatText(n) + rest)
  {
    NoLeadingZero(n);
    assert (NatText(n) + rest)[0] == NatText(n)[0];
  }

  lemma NegativeReadsBack(strict: bool, t: string, u: string, n: int, rest: string)
    requires t == "-" + u && ReadNat(u) == Some((n, rest))
    ensures ReadValue(strict, t) == Some((Int(-n), rest))
  {
    assert SkipSpace(t) == t && t[1..] == u;
  }

  lemma NaturalReadsBack(strict: bool, t: string, n: int, rest: string)
    requires StartsWithDigit(t) && ReadNat(t) == Some((n, rest))
    ensures ReadValue(strict, t) == Some((Int(n), rest))
  {
    assert SkipSpace(t) == t;
  }

  lemma NegativeIntReadsBack(strict: bool, t: string, n: int, rest: string)
    requires n < 0 && t == IntText(n) + rest && !StartsWithDigit(rest)
    ensures ReadValue(strict, t) == Some((Int(n), rest))
  {
    NatReadsBack(-n, rest);
    Regroup("-", NatText(-n), rest);
    NegativeReadsBack(strict, t, NatText(-n) + rest, -n, rest);
  }

  lemma IntReadsBack(strict: bool, t: string, n: int, rest: string)
    requires t == IntText(n) + rest && !StartsWithDigit(rest)
    ensures ReadValue(strict, t) == Some((Int(n), rest))
  {
    if n < 0 {
      NegativeIntReadsBack(strict, t, n, rest);
    } else {
      NatReadsBack(n, rest);
      NatStartsWithDigit(n, rest);
      NaturalReadsBack(strict, t, n, rest);
    }
  }

  /** No value's text starts with a space or a closing bracket. */
  lemma TextStarts(v: Json)
    ensures ValueText(v) != "" && ValueText(v)[0] !in {' ', '\t', '\n', '\r', ']', '}'}
  {
    if v.Int? {
      NoLeadingZero(if v.n < 0 then -v.n else v.n);
    }
  }

  lemma QuotedRead(strict: bool, t: string, u: string, s: string, ok: bool, rest: string)
    requires t == "\"" + u && ReadChars(strict, u) == Accepted(ok, s, rest)
    ensures ReadValue(strict, t) == Accepted(ok, Str(s), rest)
  {
    assert SkipSpace(t) == t && t[1..] == u;
  }

  lemma StringReadsBack(strict: bool, s: string, rest: string)
    ensures ReadValue(strict, StringText(s) + rest) == Accepted(!strict || CleanString(s), Str(s), rest)
  {
    var u := Escape(s) + ("\"" + rest);
    CharsReadBack(strict, s, "\"" + rest);
    assert ("\"" + rest)[1..] == rest;
    Regroup("\"" + Escape(s), "\"", rest);
    Regroup("\"", Escape(s), "\"" + rest);
    QuotedRead(strict, StringText(s) + rest, u, s, !strict || CleanString(s), rest);
  }

  lemma {:induction false} MemberLayout(m: Member, rest: string)
    ensures MemberText(m) + rest == "\"" + (Escape(m.key) + ("\"" + (":" + (ValueText(m.value) + rest))))
  {
  }

  lemma MemberRead(strict: bool, t: string, u: string, m: Member, w: string, rest: string)
    requires t == "\"" + u && ReadChars(strict, u) == Accepted(!strict || CleanString(m.key), m.key, ":" + w)
    requires ReadValue(strict, w) == Accepted(!strict || Clean(m.value), m.value, rest)
    ensures ReadMember(strict, t) == Accepted(!strict || CleanMember(m), m, rest)
  {
    assert SkipSpace(t) == t && t[1..] == u;
    var afterKey := ":" + w;
    assert SkipSpace(afterKey) == afterKey && afterKey[1..] == w;
  }

  lemma LastMemberRead(strict: bool, t: string, m: Member, ok: bool, rest: string)
    requires ReadMember(strict, t) == Accepted(ok, m, "}" + rest)
    ensures ReadMembers(strict, t) == Accepted(ok, [m], rest)
  {
    var x := "}" + rest;
    assert SkipSpace(x) == x && x[1..] == rest;
  }

  lemma {:induction false} NextMemberRead(strict: bool, t: string, m: Member, ok: bool, more: string,
                                          ms: seq<Member>, moreOk: bool, rest: string)
    requires ReadMember(strict, t) == Accepted(ok, m, "," + more)
    requires ReadMembers(strict, more) == Accepted(moreOk, ms, rest)
    ensures ReadMembers(strict, t) == Accepted(ok && moreOk, [m] + ms, rest)
  {
    var x := "," + more;
    assert SkipSpace(x) == x && x[1..] == more;
  }

  lemma LastElementRead(strict: bool, t: string, v: Json, ok: bool, rest: string)
    requires ReadValue(strict, t) == Accepted(ok, v, "]" + rest)
    ensures ReadElements(strict, t) == Accepted(ok, [v], rest)
  {
    var x := "]" + rest;
    assert SkipSpace(x) == x && x[1..] == rest;
  }

  lemma NextElementRead(strict: bool, t: string, v: Json, ok: bool, more: string,
                                          vs: seq<Json>, moreOk: bool, rest: string)
    requires ReadValue(strict, t) == Accepted(ok, v, "," + more)
    requires ReadElements(strict, more) == Accepted(moreOk, vs, rest)
    ensures ReadElements(strict, t) == Accepted(ok && moreOk, [v] + vs, rest)
  {
    var x := "," + more;
    assert SkipSpace(x) == x && x[1..] == more;
  }

  lemma {:induction false} MembersReadBack(strict: bool, ms: seq<Member>, rest: string)
    requires ms != []
    ensures ReadMembers(strict, MembersText(ms) + ("}" + rest))
         == Accepted(!strict || Clean(Object(ms)), ms, rest)
    decreases ms, 2
  {
    var end := "}" + rest;
    if |ms| == 1 {
      assert MembersText(ms) == MemberText(ms[0]);
      MemberReadsBack(strict, ms[0], end);
      LastMemberRead(strict, MembersText(ms) + end, ms[0], !strict || CleanMember(ms[0]), rest);
      assert [ms[0]] == ms;
    } else {
      var more := MembersText(ms[1..]) + end;
      MemberReadsBack(strict, ms[0], "," + more);
      MembersReadBack(strict, ms[1..], rest);
      Regroup(MemberText(ms[0]), "," + MembersText(ms[1..]), end);
      Regroup(",", MembersText(ms[1..]), end);
      NextMemberRead(strict, MembersText(ms) + end, ms[0], !strict || CleanMember(ms[0]), more, ms[1..],
                     !strict || Clean(Object(ms[1..])), rest);
      assert [ms[0]] + ms[1..] == ms;
    }
  }

  lemma {:induction false} ObjectReadsBack(strict: bool, ms: seq<Member>, rest: string)
    ensures ReadValue(strict, "{" + MembersText(ms) + "}" + rest)
         == Accepted(!strict || Clean(Object(ms)), Object(ms), rest)
    decreases ms, 3
  {
    var w := MembersText(ms) + ("}" + rest);
    assert "{" + MembersText(ms) + "}" + rest == "{" + w;
    assert SkipSpace("{" + w) == "{" + w && ("{" + w)[1..] == w;
    if ms == [] {
      assert w == "}" + rest;
      assert SkipSpace(w) == w && w[1..] == rest;
    } else {
      MembersReadBack(strict, ms, rest);
      assert w[0] == '"';
      assert SkipSpace(w) == w;
    }
  }

  lemma {:induction false} ElementsReadBack(strict: bool, vs: seq<Json>, rest: string)
    requires vs != []
    ensures ReadElements(strict, ElementsText(vs) + ("]" + rest))
         == Accepted(!strict || Clean(Array(vs)), vs, rest)
    decreases vs, 2
  {
    var end := "]" + rest;
    if |vs| == 1 {
      assert ElementsText(vs) == ValueText(vs[0]);
      ValueReadsBack(strict, vs[0], end);
      LastElementRead(strict, ElementsText(vs) + end, vs[0], !strict || Clean(vs[0]), rest);
      assert [vs[0]] == vs;
    } else {
      var more := ElementsText(vs[1..]) + end;
      ValueReadsBack(strict, vs[0], "," + more);
      ElementsReadBack(strict, vs[1..], rest);
      Regroup(ValueText(vs[0]), "," + ElementsText(vs[1..]), end);
      Regroup(",", ElementsText(vs[1..]), end);
      NextElementRead(strict, ElementsText(vs) + end, vs[0], !strict || Clean(vs[0]), more, vs[1..],
                      !strict || Clean(Array(vs[1..])), rest);
      assert [vs[0]] + vs[1..] == vs;
    }
  }

  lemma {:induction false} ArrayReadsBack(strict: bool, vs: seq<Json>, rest: string)
    ensures ReadValue(strict, "[" + ElementsText(vs) + "]" + rest)
         == Accepted(!strict || Clean(Array(vs)), Array(vs), rest)
    decreases vs, 3
  {
    var w := ElementsText(vs) + ("]" + rest);
    assert "[" + ElementsText(vs) + "]" + rest == "[" + w;
    assert SkipSpace("[" + w) == "[" + w && ("[" + w)[1..] == w;
    if vs == [] {
      assert w == "]" + rest;
      assert SkipSpace(w) == w && w[1..] == rest;
    } else {
      ElementsReadBack(strict, vs, rest);
      TextStarts(vs[0]);
      assert w[0] == ValueText(vs[0])[0];
      assert SkipSpace(w) == w;
    }
  }

  /**
   A printed value followed by any text is read as that value, with that text left over; a reader that
   keeps to RFC 8259 accepts it exactly when every string in it is UTF-8 without a control byte that the
   printer leaves as it is. An integer cannot be told from a longer one, so there the text must not go on with a digit;
   the server prints integers only inside objects and arrays.
   */
  lemma {:induction false} ValueReadsBack(strict: bool, v: Json, rest: string)
    requires v.Int? ==> !StartsWithDigit(rest)
    ensures ReadValue(strict, ValueText(v) + rest) == Accepted(!strict || Clean(v), v, rest)
    decreases v, 0
  {
    match v {
      case Int(n) => IntReadsBack(strict, ValueText(v) + rest, n, rest);
      case Str(s) => StringReadsBack(strict, s, rest);
      case Object(ms) => ObjectReadsBack(strict, ms, rest);
      case Array(vs) => ArrayReadsBack(strict, vs, rest);
    }
  }

  lemma {:induction false} MemberReadsBack(strict: bool, m: Member, rest: string)
    requires !StartsWithDigit(rest)
    ensures ReadMember(strict, MemberText(m) + rest) == Accepted(!strict || CleanMember(m), m, rest)
    decreases m, 1
  {
    var afterKey := ":" + (ValueText(m.value) + rest);
    var u := Escape(m.key) + ("\"" + afterKey);
    MemberLayout(m, rest);
    CharsReadBack(strict, m.key, "\"" + afterKey);
    ValueReadsBack(strict, m.value, rest);
    MemberRead(strict, MemberText(m) + rest, u, m, ValueText(m.value) + rest, rest);
  }

  /**
   A printed document is JSON by the standard exactly when every string in it is UTF-8 and none needed an
   escape it did not get.
   */
  lemma PrintedIsStandardIff(v: Json)
    ensures ReadValue(true, ValueText(v)) == Some((v, "")) <==> Clean(v)
  {
    ValueReadsBack(true, v, "");
    assert ValueText(v) + "" == ValueText(v);
  }

  /** So two printed documents that start the same text are the same document. */
  lemma UniquelyDecodable(v: Json, w: Json, r: string, r': string)
    requires !v.Int? && !w.Int?
    requires ValueText(v) + r == ValueText(w) + r'
    ensures v == w && r == r'
  {
    ValueReadsBack(false, v, r);
    ValueReadsBack(false, w, r');
  }
}
