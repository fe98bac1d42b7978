/** `JSONObject`, `JSONArray` and the operators that print them to a stream. */
module JsonObjects {
  import opened Text
  import opened Ordering
  import opened JsonText
  import opened JsonProofs

  // ----- the key map

  /** `std::map::insert` on the members in key order. */
  function Insert(ms: seq<Member>, key: string, value: Json): seq<Member> {
    if ms == [] || Less(key, ms[0].key) then [Member(key, value)] + ms
    else if key == ms[0].key then ms
    else [ms[0]] + Insert(ms[1..], key, value)
  }

  ghost predicate Sorted(ms: seq<Member>) {
    forall i, j :: 0 <= i < j < |ms| ==> Less(ms[i].key, ms[j].key)
  }

  ghost function ToMap(ms: seq<Member>): map<string, Json> {
    if ms == [] then map[] else ToMap(ms[1..])[ms[0].key := ms[0].value]
  }

  function Build(adds: seq<Member>): seq<Member> {
    if adds == [] then []
    else Insert(Build(adds[..|adds| - 1]), adds[|adds| - 1].key, adds[|adds| - 1].value)
  }

  /** What a sequence of additions leaves: for each key, the value added first. */
  ghost function FirstWins(adds: seq<Member>): map<string, Json> {
    if adds == [] then map[]
    else InsertFirst(FirstWins(adds[..|adds| - 1]), adds[|adds| - 1].key, adds[|adds| - 1].value)
  }

  lemma {:induction false} KeysOf(ms: seq<Member>)
    ensures forall k :: k in ToMap(ms) <==> exists i :: 0 <= i < |ms| && ms[i].key == k
  {
    if ms != [] {
      KeysOf(ms[1..]);
      forall k ensures k in ToMap(ms) <==> exists i :: 0 <= i < |ms| && ms[i].key == k {
        if k in ToMap(ms[1..]) {
          var i :| 0 <= i < |ms[1..]| && ms[1..][i].key == k;
          assert ms[i + 1].key == k;
        }
        if i :| 0 <= i < |ms| && ms[i].key == k {
          assert i > 0 ==> ms[1..][i - 1].key == k;
        }
      }
    }
  }

  lemma TailSorted(ms: seq<Member>)
    requires Sorted(ms) && ms != []
    ensures Sorted(ms[1..])
    ensures forall k :: k in ToMap(ms[1..]) ==> Less(ms[0].key, k)
    ensures ms[0].key !in ToMap(ms[1..])
  {
    KeysOf(ms[1..]);
    LessIsTotal(ms[0].key, ms[0].key);
  }

  lemma ConsSorted(m: Member, ms: seq<Member>)
    requires Sorted(ms) && (ms != [] ==> Less(m.key, ms[0].key))
    ensures Sorted([m] + ms)
  {
    forall j | 0 <= j < |ms| ensures Less(m.key, ms[j].key) {
      if j > 0 {
        LessIsTransitive(m.key, ms[0].key, ms[j].key);
      }
    }
  }

  lemma NotBelowHead(ms: seq<Member>, key: string)
    requires Sorted(ms) && (ms != [] ==> Less(key, ms[0].key))
    ensures key !in ToMap(ms)
  {
    KeysOf(ms);
    ConsSorted(Member(key, Int(0)), ms);
    TailSorted([Member(key, Int(0))] + ms);
    assert ([Member(key, Int(0))] + ms)[1..] == ms;
  }

  lemma InsertBefore(ms: seq<Member>, key: string, value: Json)
    requires Sorted(ms) && (ms == [] || Less(key, ms[0].key))
    ensures Sorted(Insert(ms, key, value))
    ensures ToMap(Insert(ms, key, value)) == InsertFirst(ToMap(ms), key, value)
  {
    ConsSorted(Member(key, value), ms);
    assert ([Member(key, value)] + ms)[1..] == ms;
    NotBelowHead(ms, key);
  }

  lemma InsertOther(m: map<string, Json>, k: string, v: Json, key: string, value: Json)
    requires key != k
    ensures InsertFirst(m, key, value)[k := v] == InsertFirst(m[k := v], key, value)
  {
  }

  lemma InsertAfter(ms: seq<Member>, key: string, value: Json)
    requires ms != [] && Sorted(ms) && !Less(key, ms[0].key) && key != ms[0].key
    requires Sorted(Insert(ms[1..], key, value))
    requires ToMap(Insert(ms[1..], key, value)) == InsertFirst(ToMap(ms[1..]), key, value)
    ensures Sorted(Insert(ms, key, value))
    ensures ToMap(Insert(ms, key, value)) == InsertFirst(ToMap(ms), key, value)
  {
    LessIsTotal(key, ms[0].key);
    var t := Insert(ms[1..], key, value);
    assert ([ms[0]] + t)[1..] == t;
    ConsSorted(ms[0], t);
    InsertOther(ToMap(ms[1..]), ms[0].key, ms[0].value, key, value);
  }

  lemma {:induction false} InsertIsFirstWins(ms: seq<Member>, key: string, value: Json)
    requires Sorted(ms)
    ensures Sorted(Insert(ms, key, value))
    ensures ToMap(Insert(ms, key, value)) == InsertFirst(ToMap(ms), key, value)
    decreases |ms|
  {
    if ms == [] || Less(key, ms[0].key) {
      InsertBefore(ms, key, value);
    } else if key != ms[0].key {
      TailSorted(ms);
      InsertIsFirstWins(ms[1..], key, value);
      InsertAfter(ms, key, value);
    }
  }

  lemma EmptyMap(ms: seq<Member>)
    ensures ToMap(ms) == map[] <==> ms == []
  {
    if ms != [] {
      assert ms[0].key in ToMap(ms);
    }
  }

  /** Members in key order are determined by their map. */
  lemma {:induction false} MapDeterminesMembers(a: seq<Member>, b: seq<Member>)
    requires Sorted(a) && Sorted(b) && ToMap(a) == ToMap(b)
    ensures a == b
    decreases |a|
  {
    EmptyMap(a);
    EmptyMap(b);
    if a != [] {
      TailSorted(a);
      TailSorted(b);
      LessIsTotal(a[0].key, b[0].key);
      assert a[0].key in ToMap(b) && b[0].key in ToMap(a);
      assert ToMap(a[1..]) == ToMap(a) - {a[0].key};
      assert ToMap(b[1..]) == ToMap(b) - {b[0].key};
      MapDeterminesMembers(a[1..], b[1..]);
      assert a == [a[0]] + a[1..] && b == [b[0]] + b[1..];
    }
  }

  lemma {:induction false} BuildIsFirstWins(adds: seq<Member>)
    ensures Sorted(Build(adds)) && ToMap(Build(adds)) == FirstWins(adds)
    decreases |adds|
  {
    if adds != [] {
      var last := adds[|adds| - 1];
      BuildIsFirstWins(adds[..|adds| - 1]);
      InsertIsFirstWins(Build(adds[..|adds| - 1]), last.key, last.value);
    }
  }

  ghost predicate FirstAdded(adds: seq<Member>, i: nat, key: string) {
    i < |adds| && adds[i].key == key && forall j :: 0 <= j < i ==> adds[j].key != key
  }

  /** A key that is added has a first addition. */
  lemma {:induction false} EarlierAdded(adds: seq<Member>, n: nat, key: string)
    requires n < |adds| && adds[n].key == key
    ensures exists i: nat :: i <= n && FirstAdded(adds, i, key)
    decreases n
  {
    if j :| 0 <= j < n && adds[j].key == key {
      EarlierAdded(adds, j, key);
    } else {
      assert FirstAdded(adds, n, key);
    }
  }

  /** The map of an object holds the first value added for each key, and no other key. */
  lemma {:induction false} FirstWinsIsFirst(adds: seq<Member>)
    ensures forall k, i: nat :: FirstAdded(adds, i, k) ==> k in FirstWins(adds) && FirstWins(adds)[k] == adds[i].value
    ensures forall k :: k in FirstWins(adds) ==> exists i: nat :: FirstAdded(adds, i, k)
    decreases |adds|
  {
    if adds != [] {
      var n := |adds| - 1;
      var before, last := adds[..n], adds[n];
      FirstWinsIsFirst(before);
      assert forall k, i: nat :: i < n ==> (FirstAdded(before, i, k) <==> FirstAdded(adds, i, k));
      assert FirstAdded(adds, n, last.key) ==> last.key !in FirstWins(before);
      forall k | k in FirstWins(adds) ensures exists i: nat :: FirstAdded(adds, i, k) {
        if k in FirstWins(before) {
          var i: nat :| FirstAdded(before, i, k);
          assert FirstAdded(adds, i, k);
        } else {
          EarlierAdded(adds, n, k);
        }
      }
    }
  }

  /** Two objects print alike exactly when, for each key, the value added first is the same. */
  lemma PrintedAlikeIff(a: seq<Member>, b: seq<Member>)
    ensures ValueText(Object(Build(a))) == ValueText(Object(Build(b))) <==> FirstWins(a) == FirstWins(b)
  {
    BuildIsFirstWins(a);
    BuildIsFirstWins(b);
    if FirstWins(a) == FirstWins(b) {
      MapDeterminesMembers(Build(a), Build(b));
    }
    if ValueText(Object(Build(a))) == ValueText(Object(Build(b))) {
      UniquelyDecodable(Object(Build(a)), Object(Build(b)), "", "");
    }
  }

  // ----- containers

  class JSONObject {
    var items: seq<Member>

    constructor ()
      ensures items == []
    {
      items := [];
    }

    /** All overloads of `add`: a key that is present keeps its value. */
    method Add(key: string, value: Json)
      requires Sorted(items)
      modifies this
      ensures items == Insert(old(items), key, value) && Sorted(items)
      ensures ToMap(items) == InsertFirst(old(ToMap(items)), key, value)
    {
      InsertIsFirstWins(items, key, value);
      items := Insert(items, key, value);
    }
  }

  class JSONArray {
    var items: seq<Json>

    constructor ()
      ensures items == []
    {
      items := [];
    }

    method Add(value: Json)
      modifies this
      ensures items == old(items) + [value]
    {
      items := items + [value];
    }
  }

  // ----- printing

  class Stream {
    var text: string

    constructor ()
      ensures text == ""
    {
      text := "";
    }

    method Put(s: string)
      modifies this
      ensures text == old(text) + s
    {
      text := text + s;
    }
  }

  lemma Regroup4(a: string, b: string, c: string, d: string)
    ensures a + b + c + d == a + (b + c + d)
  {
  }

  /** The `switch` of `serialize_string`. */
  method PutEscaped(o: Stream, c: char)
    modifies o
    ensures o.text == old(o.text) + EscapeChar(c)
  {
    match c {
      case '"' => o.Put("\\\"");
      case '\\' => o.Put("\\\\");
      case '/' => o.Put("\\/");
      case '\U{0008}' => o.Put("\\b");
      case '\U{000C}' => o.Put("\\f");
      case '\n' => o.Put("\\n");
      case '\r' => o.Put("\\r");
      case '\t' => o.Put("\\t");
      case _ => o.Put([c]);
    }
  }

  method SerializeString(o: Stream, s: string)
    modifies o
    ensures o.text == old(o.text) + StringText(s)
  {
    o.Put("\"");
    var first := 0;
    assert s[0..] == s;
    while first != |s|
      invariant 0 <= first <= |s|
      invariant o.text + Escape(s[first..]) == old(o.text) + "\"" + Escape(s)
      decreases |s| - first
    {
      assert s[first..][1..] == s[first + 1..];
      Regroup(o.text, EscapeChar(s[first]), Escape(s[first + 1..]));
      PutEscaped(o, s[first]);
      first := first + 1;
    }
    assert o.text == old(o.text) + "\"" + Escape(s);
    o.Put("\"");
  }

  /** A comma before every item but the first. */
  method PutSeparator(o: Stream, first: bool)
    modifies o
    ensures o.text == old(o.text) + if first then "" else ","
  {
    if !first {
      o.Put(",");
    }
  }

  /** What the stream holds once the printer's loop has come to the `i`th part. */
  function Printed(before: string, parts: seq<string>, i: nat): string
    requires i <= |parts|
  {
    if i == 0 then before else Printed(before, parts, i - 1) + (if i == 1 then "" else ",") + parts[i - 1]
  }

  function Join(parts: seq<string>): string {
    if parts == [] then "" else parts[0] + if |parts| == 1 then "" else "," + Join(parts[1..])
  }

  /** What is joined from the `i`th part on, with the comma before it. */
  function Left(parts: seq<string>, i: nat): string
    requires i <= |parts|
  {
    if i == 0 || i == |parts| then Join(parts[i..]) else "," + Join(parts[i..])
  }

  lemma {:induction false} LeftStep(parts: seq<string>, i: nat)
    requires i < |parts|
    ensures Left(parts, i) == (if i == 0 then "" else ",") + (parts[i] + Left(parts, i + 1))
  {
    assert parts[i..][1..] == parts[i + 1..];
    assert i == 0 ==> "" + Left(parts, 0) == Left(parts, 0);
  }

  lemma OneMore(printed: string, sep: string, next: string, rest: string, left: string, whole: string, more: string)
    requires left == sep + (next + rest) && printed + left == whole && more == printed + sep + next
    ensures more + rest == whole
  {
    assert more + rest == printed + (sep + (next + rest));
  }

  /** `lefts[i]` is what is left to print from the `i`th part on. */
  lemma {:induction false} PrintedAndLeft(before: string, parts: seq<string>, lefts: seq<string>, i: nat, whole: string)
    requires i <= |parts| && |lefts| == |parts| + 1 && whole == before + lefts[0]
    requires forall j :: 0 <= j < |parts| ==> lefts[j] == (if j == 0 then "" else ",") + (parts[j] + lefts[j + 1])
    ensures Printed(before, parts, i) + lefts[i] == whole
  {
    if i > 0 {
      PrintedAndLeft(before, parts, lefts, i - 1, whole);
      OneMore(Printed(before, parts, i - 1), if i == 1 then "" else ",", parts[i - 1], lefts[i],
              lefts[i - 1], whole, Printed(before, parts, i));
    }
  }

  lemma LeftEnds(parts: seq<string>)
    ensures Left(parts, 0) == Join(parts) && Left(parts, |parts|) == ""
  {
    assert parts[0..] == parts && parts[|parts|..] == [];
  }

  lemma {:induction false} AllPrinted(before: string, parts: seq<string>)
    ensures Printed(before, parts, |parts|) == before + Join(parts)
  {
    var n := |parts|;
    var lefts := seq(n + 1, i requires 0 <= i <= n => Left(parts, i));
    forall i | 0 <= i < n ensures lefts[i] == (if i == 0 then "" else ",") + (parts[i] + lefts[i + 1]) {
      LeftStep(parts, i);
    }
    PrintedAndLeft(before, parts, lefts, n, before + lefts[0]);
    LeftEnds(parts);
    AppendNothing(Printed(before, parts, n));
  }

  function MemberTexts(ms: seq<Member>): (parts: seq<string>)
    ensures |parts| == |ms| && forall i :: 0 <= i < |ms| ==> parts[i] == MemberText(ms[i])
  {
    seq(|ms|, i requires 0 <= i < |ms| => MemberText(ms[i]))
  }

  lemma {:induction false} MembersJoined(ms: seq<Member>)
    ensures Join(MemberTexts(ms)) == MembersText(ms)
  {
    if ms != [] {
      MembersJoined(ms[1..]);
      assert MemberTexts(ms)[1..] == MemberTexts(ms[1..]);
    }
  }

  function ElementTexts(vs: seq<Json>): (parts: seq<string>)
    ensures |parts| == |vs| && forall i :: 0 <= i < |vs| ==> parts[i] == ValueText(vs[i])
  {
    seq(|vs|, i requires 0 <= i < |vs| => ValueText(vs[i]))
  }

  lemma {:induction false} ElementsJoined(vs: seq<Json>)
    ensures Join(ElementTexts(vs)) == ElementsText(vs)
  {
    if vs != [] {
      ElementsJoined(vs[1..]);
      assert ElementTexts(vs)[1..] == ElementTexts(vs[1..]);
    }
  }

  method PrintArray(o: Stream, vs: seq<Json>)
    modifies o
    ensures o.text == old(o.text) + ("[" + ElementsText(vs) + "]")
    decreases vs, 4
  {
    var first := true;
    o.Put("[");
    var i := 0;
    ghost var before, parts := o.text, ElementTexts(vs);
    while i != |vs|
      invariant 0 <= i <= |vs| && first == (i == 0)
      invariant o.text == Printed(before, parts, i)
      decreases |vs| - i
    {
      PrintElement(o, vs[i], first);
      first := false;
      i := i + 1;
    }
    AllPrinted(before, parts);
    ElementsJoined(vs);
    o.Put("]");
    Regroup4(old(o.text), "[", ElementsText(vs), "]");
  }

  method PrintMember(o: Stream, m: Member, first: bool)
    modifies o
    ensures o.text == old(o.text) + (if first then "" else ",") + MemberText(m)
    decreases m, 2
  {
    PutSeparator(o, first);
    SerializeString(o, m.key);
    o.Put(":");
    PrintValue(o, m.value);
  }

  method PrintObject(o: Stream, ms: seq<Member>)
    modifies o
    ensures o.text == old(o.text) + ("{" + MembersText(ms) + "}")
    decreases ms, 4
  {
    var first := true;
    o.Put("{");
    var i := 0;
    ghost var before, parts := o.text, MemberTexts(ms);
    while i != |ms|
      invariant 0 <= i <= |ms| && first == (i == 0)
      invariant o.text == Printed(before, parts, i)
      decreases |ms| - i
    {
      PrintMember(o, ms[i], first);
      first := false;
      i := i + 1;
    }
    AllPrinted(before, parts);
    MembersJoined(ms);
    o.Put("}");
    Regroup4(old(o.text), "{", MembersText(ms), "}");
  }

  /** The `switch` on the type of a contained value. */
  method PrintValue(o: Stream, v: Json)
    modifies o
    ensures o.text == old(o.text) + ValueText(v)
    decreases v, 1
  {
    match v {
      case Object(ms) => PrintObject(o, ms);
      case Array(vs) => PrintArray(o, vs);
      case Str(s) => SerializeString(o, s);
      case Int(n) => o.Put(IntText(n));
    }
  }

  method PrintElement(o: Stream, v: Json, first: bool)
    modifies o
    ensures o.text == old(o.text) + (if first then "" else ",") + ValueText(v)
    decreases v, 2
  {
    PutSeparator(o, first);
    PrintValue(o, v);
  }
}
