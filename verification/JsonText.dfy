/** JSON values, their printed text, and a reader that keeps to RFC 8259 or lets any octet pass in a string. */
module JsonText {
  import opened Text

  /** Objects list their members in key order, as `std::map` iterates. */
  datatype Json =
    | Object(members: seq<Member>)
    | Array(elements: seq<Json>)
    | Str(s: string)
    | Int(n: int)

  datatype Member = Member(key: string, value: Json)

  const BS := '\U{0008}'
  const FF := '\U{000C}'

  // ----- printing

  function EscapeChar(c: char): string {
    if c == '"' then "\\\""
    else if c == '\\' then "\\\\"
    else if c == '/' then "\\/"
    else if c == BS then "\\b"
    else if c == FF then "\\f"
    else if c == '\n' then "\\n"
    else if c == '\r' then "\\r"
    else if c == '\t' then "\\t"
    else [c]
  }

  function Escape(s: string): string {
    if s == "" then "" else EscapeChar(s[0]) + Escape(s[1..])
  }

  function StringText(s: string): string {
    "\"" + Escape(s) + "\""
  }

  function Digit(n: nat): char
    requires n < 10
  {
    '0' + n as char
  }

  function NatText(n: nat): string {
    (if n < 10 then "" else NatText(n / 10)) + [Digit(n % 10)]
  }

  function IntText(n: int): string {
    if n < 0 then "-" + NatText(-n) else NatText(n)
  }

  function MembersText(ms: seq<Member>): string {
    if ms == [] then "" else MemberText(ms[0]) + if |ms| == 1 then "" else "," + MembersText(ms[1..])
  }

  function ElementsText(vs: seq<Json>): string {
    if vs == [] then "" else ValueText(vs[0]) + if |vs| == 1 then "" else "," + ElementsText(vs[1..])
  }

  function ValueText(v: Json): string {
    match v
    case Object(ms) => "{" + MembersText(ms) + "}"
    case Array(vs) => "[" + ElementsText(vs) + "]"
    case Str(s) => StringText(s)
    case Int(n) => IntText(n)
  }

  function MemberText(m: Member): string {
    StringText(m.key) + ":" + ValueText(m.value)
  }

  // ----- reading

  /** Insignificant whitespace, section 2 of RFC 8259. */
  function SkipSpace(t: string): (r: string)
    ensures |r| <= |t|
  {
    if t != "" && t[0] in {' ', '\t', '\n', '\r'} then SkipSpace(t[1..]) else t
  }

  function Unescape(c: char): Option<char> {
    match c
    case '"' => Some('"')
    case '\\' => Some('\\')
    case '/' => Some('/')
    case 'b' => Some(BS)
    case 'f' => Some(FF)
    case 'n' => Some('\n')
    case 'r' => Some('\r')
    case 't' => Some('\t')
    case _ => None
  }

  predicate Between(t: string, i: nat, low: int, high: int) {
    i < |t| && low <= t[i] as int <= high
  }

  /** A continuation octet of UTF-8. */
  predicate Tail(t: string, i: nat) {
    Between(t, i, 0x80, 0xBF)
  }

  /** How many octets the UTF-8 sequence at the start of `t` has, by section 4 of RFC 3629; 0 if there is none. */
  function Utf8Length(t: string): (k: nat)
    ensures k <= |t|
  {
    if Between(t, 0, 0x00, 0x7F) then 1
    else if Between(t, 0, 0xC2, 0xDF) then if Tail(t, 1) then 2 else 0
    else if Between(t, 0, 0xE0, 0xEF) then
      var low, high := if t[0] as int == 0xE0 then 0xA0 else 0x80, if t[0] as int == 0xED then 0x9F else 0xBF;
      if Between(t, 1, low, high) && Tail(t, 2) then 3 else 0
    else if Between(t, 0, 0xF0, 0xF4) then
      var low, high := if t[0] as int == 0xF0 then 0x90 else 0x80, if t[0] as int == 0xF4 then 0x8F else 0xBF;
      if Between(t, 1, low, high) && Tail(t, 2) && Tail(t, 3) then 4 else 0
    else 0
  }

  /** Well-formed UTF-8. */
  predicate Utf8(t: string) {
    t == "" || (Utf8Length(t) > 0 && Utf8(t[Utf8Length(t)..]))
  }

  /** How much of a string is read at once: an octet, or for the strict reader what encodes a character. */
  function UnitLength(strict: bool, t: string): (k: nat)
    ensures k <= |t|
  {
    if t == "" then 0 else if !strict then 1 else if t[0] < ' ' then 0 else Utf8Length(t)
  }

  /**
   Section 7, after the opening quote: two-character escapes, no raw control byte, and by section 8.1
   characters in UTF-8; what is outside of strings is ASCII by the grammar.
   */
  function ReadChars(strict: bool, t: string): (r: Option<(string, string)>)
    ensures r.Some? ==> |r.value.1| < |t|
    decreases |t|
  {
    if t == "" then None
    else if t[0] == '"' then Some(("", t[1..]))
    else if t[0] != '\\' then
      var k := UnitLength(strict, t);
      if k == 0 then None
      else
        match ReadChars(strict, t[k..])
        case None => None
        case Some((s, rest)) => Some((t[..k] + s, rest))
    else if |t| == 1 || Unescape(t[1]).None? then None
    else
      match ReadChars(strict, t[2..])
      case None => None
      case Some((s, rest)) => Some(([Unescape(t[1]).value] + s, rest))
  }

  /** Section 6 without fraction and exponent: no leading zeros. */
  function ReadNat(t: string): (r: Option<(int, string)>)
    ensures r.Some? ==> |r.value.1| < |t|
  {
    var k := DigitSpan(t);
    if k == 0 || (t[0] == '0' && k > 1) then None else Some((NatValue(t[..k]), t[k..]))
  }

  /** One or more members up to the closing brace. */
  function ReadMembers(strict: bool, t: string): (r: Option<(seq<Member>, string)>)
    ensures r.Some? ==> |r.value.1| < |t|
    decreases |t|, 2
  {
    match ReadMember(strict, t)
    case None => None
    case Some((m, afterMember)) =>
      var x := SkipSpace(afterMember);
      if x != "" && x[0] == '}' then Some(([m], x[1..]))
      else if x == "" || x[0] != ',' then None
      else
        match ReadMembers(strict, x[1..])
        case None => None
        case Some((ms, rest)) => Some(([m] + ms, rest))
  }

  /** Section 5: one or more elements up to the closing bracket. */
  function ReadElements(strict: bool, t: string): (r: Option<(seq<Json>, string)>)
    ensures r.Some? ==> |r.value.1| < |t|
    decreases |t|, 1
  {
    match ReadValue(strict, t)
    case None => None
    case Some((v, afterValue)) =>
      var x := SkipSpace(afterValue);
      if x != "" && x[0] == ']' then Some(([v], x[1..]))
      else if x == "" || x[0] != ',' then None
      else
        match ReadElements(strict, x[1..])
        case None => None
        case Some((vs, rest)) => Some(([v] + vs, rest))
  }

  function ReadValue(strict: bool, t: string): (r: Option<(Json, string)>)
    ensures r.Some? ==> |r.value.1| < |t|
    decreases |t|, 0
  {
    var u := SkipSpace(t);
    if u == "" then None
    else if u[0] == '{' then
      var w := SkipSpace(u[1..]);
      if w != "" && w[0] == '}' then Some((Object([]), w[1..]))
      else
        match ReadMembers(strict, w)
        case None => None
        case Some((ms, rest)) => Some((Object(ms), rest))
    else if u[0] == '[' then
      var w := SkipSpace(u[1..]);
      if w != "" && w[0] == ']' then Some((Array([]), w[1..]))
      else
        match ReadElements(strict, w)
        case None => None
        case Some((vs, rest)) => Some((Array(vs), rest))
    else if u[0] == '"' then
      match ReadChars(strict, u[1..])
      case None => None
      case Some((s, rest)) => Some((Str(s), rest))
    else if u[0] == '-' then
      match ReadNat(u[1..])
      case None => None
      case Some((n, rest)) => Some((Int(-n), rest))
    else
      match ReadNat(u)
      case None => None
      case Some((n, rest)) => Some((Int(n), rest))
  }

  /** Section 4: a name, a colon and a value. */
  function ReadMember(strict: bool, t: string): (r: Option<(Member, string)>)
    ensures r.Some? ==> |r.value.1| < |t|
    decreases |t|, 1
  {
    var u := SkipSpace(t);
    if u == "" || u[0] != '"' then None
    else
      match ReadChars(strict, u[1..])
      case None => None
      case Some((key, afterKey)) =>
        var w := SkipSpace(afterKey);
        if w == "" || w[0] != ':' then None
        else
          match ReadValue(strict, w[1..])
          case None => None
          case Some((v, rest)) => Some((Member(key, v), rest))
  }

  // ----- what the printer leaves unescaped

  predicate EscapesSuffice(s: string) {
    forall i :: 0 <= i < |s| ==> s[i] >= ' ' || s[i] in {BS, FF, '\n', '\r', '\t'}
  }

  /** UTF-8, in which every control byte gets an escape: those with a letter of their own. */
  predicate CleanString(s: string) {
    Utf8(s) && EscapesSuffice(s)
  }

  /** Every string and every key can be given raw, but for the escapes. */
  predicate Clean(v: Json) {
    match v
    case Object(ms) => forall m :: m in ms ==> CleanMember(m)
    case Array(vs) => forall w :: w in vs ==> Clean(w)
    case Str(s) => CleanString(s)
    case Int(_) => true
  }

  predicate CleanMember(m: Member) {
    CleanString(m.key) && Clean(m.value)
  }
}
