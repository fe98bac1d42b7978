/** `parse_query_args`: the query string cut into arguments. */
module QueryArgs {
  import opened Text

  /** The character that line 456 of fcgi_handler.cpp looks for after the first '&'. */
  const LATER_SEPARATOR := 'c'

  /** One argument: its name and value at the first '=', nothing if it is empty. */
  function Store(params: map<string, string>, arg: string): map<string, string> {
    var delim := CSpan(arg, {'='});
    if delim < |arg| then InsertFirst(params, arg[..delim], arg[delim + 1..])
    else if arg != "" then InsertFirst(params, arg, "")
    else params
  }

  function StoreAll(params: map<string, string>, args: seq<string>): map<string, string>
    decreases |args|
  {
    if args == [] then params else StoreAll(Store(params, args[0]), args[1..])
  }

  /** Split at every `sep`. */
  function SplitAt(t: string, sep: char): (r: seq<string>)
    ensures r != []
    decreases |t|
  {
    var n := CSpan(t, {sep});
    if n == |t| then [t] else [t[..n]] + SplitAt(t[n + 1..], sep)
  }

  /** The arguments the loop sees: the first separator is '&', the later ones are `later`. */
  function Arguments(t: string, later: char): seq<string> {
    var n := CSpan(t, {'&'});
    if n == |t| then [t] else [t[..n]] + SplitAt(t[n + 1..], later)
  }

  /** `find_first_of(c, first)`; `None` is npos. */
  function FindFrom(t: string, c: char, first: nat): (r: Option<nat>)
    requires first <= |t|
    ensures r.Some? ==> first <= r.value < |t|
  {
    var n := CSpan(t[first..], {c});
    if first + n == |t| then None else Some(first + n)
  }

  method StoreArg(params: map<string, string>, arg: string) returns (r: map<string, string>)
    ensures r == Store(params, arg)
  {
    r := params;
    var delim := FindFrom(arg, '=', 0);
    assert arg[0..] == arg;
    if delim.Some? {
      r := InsertFirst(r, arg[..delim.value], arg[delim.value + 1..]);
    } else if arg != "" {
      r := InsertFirst(r, arg, "");
    }
  }

  /** The arguments from `first` on, the next separator being at `last`. */
  function Pending(t: string, first: nat, last: Option<nat>, later: char): seq<string>
    requires first <= |t| && (last.Some? ==> first <= last.value < |t|)
  {
    if last.None? then [t[first..]] else [t[first..last.value]] + SplitAt(t[last.value + 1..], later)
  }

  lemma {:induction false} PendingIsSplit(t: string, first: nat, sep: char)
    requires first <= |t|
    ensures Pending(t, first, FindFrom(t, sep, first), sep) == SplitAt(t[first..], sep)
  {
    var n := CSpan(t[first..], {sep});
    assert t[first..][..n] == t[first..first + n];
    assert first + n < |t| ==> t[first..][n + 1..] == t[first + n + 1..];
  }

  lemma {:induction false} PendingIsArguments(t: string, later: char)
    ensures Pending(t, 0, FindFrom(t, '&', 0), later) == Arguments(t, later)
  {
    assert t[0..] == t;
  }

  /** The loop, with the separator it looks for after the first as a parameter. */
  method ParseWith(query: string, later: char, params: map<string, string>) returns (r: map<string, string>)
    ensures r == StoreAll(params, Arguments(query, later))
  {
    r := params;
    var first := 0;
    var last := FindFrom(query, '&', first);
    PendingIsArguments(query, later);
    while last.Some?
      invariant first <= |query| && (last.Some? ==> first <= last.value < |query|)
      invariant StoreAll(params, Arguments(query, later)) == StoreAll(r, Pending(query, first, last, later))
      decreases |query| - first
    {
      var arg := query[first..last.value];
      ghost var rest := SplitAt(query[last.value + 1..], later);
      assert ([arg] + rest)[1..] == rest;
      r := StoreArg(r, arg);
      first := last.value + 1;
      last := FindFrom(query, later, first);
      PendingIsSplit(query, first, later);
    }
    assert [query[first..]][1..] == [];
    r := StoreArg(r, query[first..]);
  }

  method ParseQueryArgs(query: string) returns (r: map<string, string>)
    ensures r == StoreAll(map[], Arguments(query, LATER_SEPARATOR))
  {
    r := ParseWith(query, LATER_SEPARATOR, map[]);
  }

  // ----- as meant

  lemma {:induction false} MeantIsSplit(t: string)
    ensures Arguments(t, '&') == SplitAt(t, '&')
  {
  }

  /** What may stand between two separators. */
  datatype Arg = Pair(name: string, value: string) | Flag(name: string) | Blank

  function ArgText(a: Arg): string {
    match a
    case Pair(name, value) => name + ("=" + value)
    case Flag(name) => name
    case Blank => ""
  }

  ghost predicate Encodable(a: Arg) {
    && '&' !in ArgText(a)
    && (a.Pair? || a.Flag? ==> '=' !in a.name)
    && (a.Flag? ==> a.name != "")
  }

  function Encode(args: seq<Arg>): string
    requires args != []
  {
    if |args| == 1 then ArgText(args[0]) else ArgText(args[0]) + ("&" + Encode(args[1..]))
  }

  function Stored(params: map<string, string>, a: Arg): map<string, string> {
    match a
    case Pair(name, value) => InsertFirst(params, name, value)
    case Flag(name) => InsertFirst(params, name, "")
    case Blank => params
  }

  function FirstWins(params: map<string, string>, args: seq<Arg>): map<string, string>
    decreases |args|
  {
    if args == [] then params else FirstWins(Stored(params, args[0]), args[1..])
  }

  lemma PairStores(params: map<string, string>, name: string, value: string)
    requires '=' !in name
    ensures Store(params, name + ("=" + value)) == InsertFirst(params, name, value)
  {
    var arg := name + ("=" + value);
    SpanOver(name, "=" + value, {'='});
    assert arg[..|name|] == name && arg[|name| + 1..] == value;
  }

  lemma ArgStores(params: map<string, string>, a: Arg)
    requires Encodable(a)
    ensures Store(params, ArgText(a)) == Stored(params, a)
  {
    match a {
      case Pair(name, value) => PairStores(params, name, value);
      case Flag(name) =>
        SpanOver(name, "", {'='});
        assert name + "" == name;
      case Blank =>
    }
  }

  lemma StoreAllCons(params: map<string, string>, arg: string, rest: seq<string>)
    ensures StoreAll(params, [arg] + rest) == StoreAll(Store(params, arg), rest)
  {
    assert ([arg] + rest)[1..] == rest;
  }

  lemma SplitHead(arg: string, tail: string, sep: char)
    requires sep !in arg && (tail != "" ==> tail[0] == sep)
    ensures SplitAt(arg + tail, sep) == [arg] + if tail == "" then [] else SplitAt(tail[1..], sep)
  {
    var t := arg + tail;
    SpanOver(arg, tail, {sep});
    assert t[..|arg|] == arg;
    if tail != "" {
      assert t[|arg| + 1..] == tail[1..];
    } else {
      assert t == arg;
    }
  }

  lemma EncodeSplits(args: seq<Arg>)
    requires args != [] && Encodable(args[0])
    ensures SplitAt(Encode(args), '&')
         == [ArgText(args[0])] + if |args| == 1 then [] else SplitAt(Encode(args[1..]), '&')
  {
    var arg := ArgText(args[0]);
    if |args| == 1 {
      SplitHead(arg, "", '&');
      assert arg + "" == arg;
    } else {
      var tail := "&" + Encode(args[1..]);
      SplitHead(arg, tail, '&');
      assert tail[1..] == Encode(args[1..]);
    }
  }

  lemma FirstReadsBack(params: map<string, string>, args: seq<Arg>)
    requires args != [] && Encodable(args[0])
    ensures StoreAll(params, SplitAt(Encode(args), '&'))
         == StoreAll(Stored(params, args[0]), if |args| == 1 then [] else SplitAt(Encode(args[1..]), '&'))
  {
    var rest := if |args| == 1 then [] else SplitAt(Encode(args[1..]), '&');
    EncodeSplits(args);
    ArgStores(params, args[0]);
    StoreAllCons(params, ArgText(args[0]), rest);
  }

  /**
   With '&' throughout, the loop reads back every list of arguments: the first value of each name, an
   empty value for a name without '=', nothing for an empty argument.
   */
  lemma {:induction false} QueryReadsBack(params: map<string, string>, args: seq<Arg>)
    requires args != [] && forall a :: a in args ==> Encodable(a)
    ensures StoreAll(params, Arguments(Encode(args), '&')) == FirstWins(params, args)
    decreases |args|
  {
    MeantIsSplit(Encode(args));
    assert args[0] in args;
    FirstReadsBack(params, args);
    if |args| == 1 {
      assert args[1..] == [];
    } else {
      MeantIsSplit(Encode(args[1..]));
      QueryReadsBack(Stored(params, args[0]), args[1..]);
    }
  }

  ghost predicate FirstNamed(args: seq<Arg>, i: nat, name: string) {
    && i < |args| && !args[i].Blank? && args[i].name == name
    && forall j :: 0 <= j < i ==> args[j].Blank? || args[j].name != name
  }

  /** That is, the value of the first argument with each name, an empty one for a name alone, and nothing else. */
  lemma {:induction false} FirstWinsIsFirst(params: map<string, string>, args: seq<Arg>)
    ensures var r := FirstWins(params, args);
            && (forall k :: k in params ==> k in r && r[k] == params[k])
            && (forall k, i: nat :: FirstNamed(args, i, k) && k !in params ==>
                  k in r && r[k] == if args[i].Pair? then args[i].value else "")
            && (forall k :: k in r && k !in params ==> exists i: nat :: FirstNamed(args, i, k))
    decreases |args|
  {
    if args != [] {
      var a, tail, m := args[0], args[1..], Stored(params, args[0]);
      FirstWinsIsFirst(m, tail);
      assert forall j :: 0 <= j < |tail| ==> tail[j] == args[j + 1];
      assert forall k :: k in params ==> k in m && m[k] == params[k];
      forall k, i: nat | FirstNamed(args, i, k) && k !in params
        ensures var r := FirstWins(params, args); k in r && r[k] == if args[i].Pair? then args[i].value else ""
      {
        if i > 0 {
          assert FirstNamed(tail, i - 1, k) && k !in m;
        }
      }
      forall k | k in FirstWins(params, args) && k !in params ensures exists i: nat :: FirstNamed(args, i, k) {
        if k in m {
          assert FirstNamed(args, 0, k);
        } else {
          var i: nat :| FirstNamed(tail, i, k);
          assert FirstNamed(args, i + 1, k);
        }
      }
    }
  }

  lemma ArgOf(s: string) returns (a: Arg)
    requires '&' !in s
    ensures Encodable(a) && ArgText(a) == s
  {
    var delim := CSpan(s, {'='});
    if delim < |s| {
      a := Pair(s[..delim], s[delim + 1..]);
      assert s == s[..delim] + ("=" + s[delim + 1..]);
    } else if s != "" {
      a := Flag(s);
    } else {
      a := Blank;
    }
  }

  lemma EncodeCons(a: Arg, rest: seq<Arg>)
    requires rest != []
    ensures Encode([a] + rest) == ArgText(a) + ("&" + Encode(rest))
  {
    assert ([a] + rest)[1..] == rest;
  }

  lemma Around(t: string, n: nat)
    requires n < |t| && t[n] == '&'
    ensures t == t[..n] + ("&" + t[n + 1..])
  {
  }

  /** Every query string is such an encoding, so reading back covers all of them. */
  lemma {:induction false} EveryQueryIsEncoded(t: string) returns (args: seq<Arg>)
    ensures args != [] && (forall a :: a in args ==> Encodable(a)) && Encode(args) == t
    decreases |t|
  {
    var n := CSpan(t, {'&'});
    var a := ArgOf(t[..n]);
    if n == |t| {
      args := [a];
      assert t[..n] == t;
    } else {
      var rest := EveryQueryIsEncoded(t[n + 1..]);
      args := [a] + rest;
      EncodeCons(a, rest);
      Around(t, n);
    }
  }

  // ----- as written

  lemma SplitSame(t: string, a: char, b: char)
    requires a != b
    ensures SplitAt(t, a) == SplitAt(t, b) <==> a !in t && b !in t
  {
    var n, m := CSpan(t, {a}), CSpan(t, {b});
    assert a !in t ==> n == |t|;
    assert b !in t ==> m == |t|;
    assert |SplitAt(t, a)[0]| == n && |SplitAt(t, b)[0]| == m;
    assert n < |t| ==> t[n] == a;
    assert m < |t| ==> t[m] == b;
  }

  /**
   The arguments seen are those meant exactly when no '&' and no 'c' follows the first '&': a third
   argument is never split off, and a second one with a 'c' in it is split.
   */
  lemma {:induction false} WrittenIsMeantIff(t: string)
    ensures Arguments(t, LATER_SEPARATOR) == SplitAt(t, '&') <==>
            var n := CSpan(t, {'&'});
            n < |t| ==> '&' !in t[n + 1..] && 'c' !in t[n + 1..]
  {
    var n := CSpan(t, {'&'});
    if n < |t| {
      SplitSame(t[n + 1..], 'c', '&');
      var x, y := SplitAt(t[n + 1..], 'c'), SplitAt(t[n + 1..], '&');
      assert ([t[..n]] + x)[1..] == x && ([t[..n]] + y)[1..] == y;
    }
  }

  // ----- as stored

  function NameOf(arg: string): string {
    arg[..CSpan(arg, {'='})]
  }

  function ValueOf(arg: string): string {
    var delim := CSpan(arg, {'='});
    if delim < |arg| then arg[delim + 1..] else ""
  }

  /** No two arguments that are not empty have the same name. */
  ghost predicate DistinctNames(args: seq<string>) {
    forall i, j :: 0 <= i < j < |args| && args[i] != "" && args[j] != "" ==> NameOf(args[i]) != NameOf(args[j])
  }

  lemma StoreInserts(params: map<string, string>, arg: string)
    ensures Store(params, arg) == if arg == "" then params else InsertFirst(params, NameOf(arg), ValueOf(arg))
  {
    assert CSpan(arg, {'='}) == |arg| ==> NameOf(arg) == arg;
  }

  lemma InNameOrValue(arg: string, x: char)
    requires x != '='
    ensures x in arg <==> x in NameOf(arg) || x in ValueOf(arg)
  {
    var delim := CSpan(arg, {'='});
    if delim < |arg| {
      assert arg == arg[..delim] + ([arg[delim]] + arg[delim + 1..]);
    } else {
      assert arg[..delim] == arg;
    }
  }

  lemma {:induction false} StoredStays(params: map<string, string>, args: seq<string>, k: string)
    requires k in params
    ensures k in StoreAll(params, args) && StoreAll(params, args)[k] == params[k]
    decreases |args|
  {
    if args != [] {
      StoreInserts(params, args[0]);
      StoredStays(Store(params, args[0]), args[1..], k);
    }
  }

  /** What is stored was there before or is the name and value of an argument. */
  lemma {:induction false} StoredFrom(params: map<string, string>, args: seq<string>, k: string) returns (arg: string)
    requires k in StoreAll(params, args) && k !in params
    ensures arg in args && NameOf(arg) == k && ValueOf(arg) == StoreAll(params, args)[k]
    decreases |args|
  {
    StoreInserts(params, args[0]);
    if k in Store(params, args[0]) {
      arg := args[0];
      StoredStays(Store(params, arg), args[1..], k);
    } else {
      arg := StoredFrom(Store(params, args[0]), args[1..], k);
    }
  }

  /** An argument is stored if its name is new. */
  lemma {:induction false} NewNameStored(params: map<string, string>, args: seq<string>, i: nat)
    requires i < |args| && args[i] != "" && NameOf(args[i]) !in params && DistinctNames(args)
    ensures var r := StoreAll(params, args);
            NameOf(args[i]) in r && r[NameOf(args[i])] == ValueOf(args[i])
    decreases i
  {
    StoreInserts(params, args[0]);
    if i == 0 {
      StoredStays(Store(params, args[0]), args[1..], NameOf(args[0]));
    } else {
      var rest := args[1..];
      assert forall j :: 0 <= j < |rest| ==> rest[j] == args[j + 1];
      NewNameStored(Store(params, args[0]), rest, i - 1);
    }
  }

  lemma {:induction false} SegmentsFree(t: string, sep: char)
    ensures forall arg :: arg in SplitAt(t, sep) ==> sep !in arg
    decreases |t|
  {
    var n := CSpan(t, {sep});
    if n < |t| {
      SegmentsFree(t[n + 1..], sep);
    }
  }

  lemma InTail(t: string, n: nat, x: char)
    requires n < |t| && x in t && x !in t[..n] && x != t[n]
    ensures x in t[n + 1..]
  {
    assert t == t[..n] + ([t[n]] + t[n + 1..]);
  }

  lemma {:induction false} SegmentWith(t: string, sep: char, x: char) returns (i: nat)
    requires x in t && x != sep
    ensures i < |SplitAt(t, sep)| && x in SplitAt(t, sep)[i]
    decreases |t|
  {
    var n := CSpan(t, {sep});
    i := 0;
    if n < |t| && x !in t[..n] {
      InTail(t, n, x);
      var j := SegmentWith(t[n + 1..], sep, x);
      i := j + 1;
    }
  }

  /** The later arguments contain a `c`: it is stored as meant and not as written. */
  lemma LaterCShows(x: string, y: string)
    requires 'c' in y && DistinctNames([x] + SplitAt(y, '&'))
    ensures StoreAll(map[], [x] + SplitAt(y, 'c')) != StoreAll(map[], [x] + SplitAt(y, '&'))
  {
    var meant := [x] + SplitAt(y, '&');
    var i := SegmentWith(y, '&', 'c');
    var arg := meant[i + 1];
    NewNameStored(map[], meant, i + 1);
    InNameOrValue(arg, 'c');
    StoreAllCons(map[], x, SplitAt(y, 'c'));
    StoreInserts(map[], x);
    assert NameOf(arg) !in Store(map[], x) by {
      assert meant[0] == x;
    }
    if NameOf(arg) in StoreAll(Store(map[], x), SplitAt(y, 'c')) {
      var other := StoredFrom(Store(map[], x), SplitAt(y, 'c'), NameOf(arg));
      SegmentsFree(y, 'c');
      InNameOrValue(other, 'c');
    }
  }

  /** The name of all that is left is that of its first argument, or runs over a '&'. */
  lemma NameOfRest(y: string)
    requires '&' in y
    ensures var first := y[..CSpan(y, {'&'})];
            if '=' in first then NameOf(y) == NameOf(first) else '&' in NameOf(y)
  {
    var n, delim := CSpan(y, {'&'}), CSpan(y, {'='});
    if delim < n {
      assert y[..n] == y[..delim] + y[delim..n];
      SpanOver(y[..delim], y[delim..n], {'='});
      assert y[..n][..delim] == y[..delim];
      assert y[..n][delim] == '=';
    } else {
      assert y[n] == '&' && y[n] in y[..delim];
    }
  }

  lemma SecondNameIsNew(x: string, y: string)
    requires '&' !in x && '&' in y && DistinctNames([x] + SplitAt(y, '&'))
    ensures x == "" || NameOf(x) != NameOf(y)
  {
    var meant := [x] + SplitAt(y, '&');
    assert meant[0] == x && meant[1] == y[..CSpan(y, {'&'})];
    NameOfRest(y);
    InNameOrValue(x, '&');
  }

  /** The later arguments contain no `c` but a `&`: it is stored as written and not as meant. */
  lemma {:induction false} LaterAmpersandShows(x: string, y: string)
    requires '&' !in x && '&' in y && (x == "" || NameOf(x) != NameOf(y))
    ensures StoreAll(map[], [x] + [y]) != StoreAll(map[], [x] + SplitAt(y, '&'))
  {
    var meant := [x] + SplitAt(y, '&');
    NewNameStored(map[], [x] + [y], 1);
    InNameOrValue(y, '&');
    if NameOf(y) in StoreAll(map[], meant) {
      var other := StoredFrom(map[], meant, NameOf(y));
      SegmentsFree(y, '&');
      InNameOrValue(other, '&');
    }
  }

  lemma OneArgument(y: string, sep: char)
    requires sep !in y
    ensures SplitAt(y, sep) == [y]
  {
  }

  lemma LaterSeparatorShowsIff(x: string, y: string)
    requires '&' !in x && DistinctNames([x] + SplitAt(y, '&'))
    ensures StoreAll(map[], [x] + SplitAt(y, 'c')) == StoreAll(map[], [x] + SplitAt(y, '&')) <==>
            '&' !in y && 'c' !in y
  {
    SplitSame(y, 'c', '&');
    if 'c' in y {
      LaterCShows(x, y);
    } else if '&' in y {
      OneArgument(y, 'c');
      SecondNameIsNew(x, y);
      LaterAmpersandShows(x, y);
    }
  }

  /**
   What is stored is what was meant exactly when no '&' and no 'c' follows the first '&', for every query
   string whose arguments have different names.
   */
  lemma {:induction false} StoredAsMeantIff(t: string)
    requires DistinctNames(SplitAt(t, '&'))
    ensures StoreAll(map[], Arguments(t, LATER_SEPARATOR)) == StoreAll(map[], SplitAt(t, '&')) <==>
            var n := CSpan(t, {'&'});
            n < |t| ==> '&' !in t[n + 1..] && 'c' !in t[n + 1..]
  {
    var n := CSpan(t, {'&'});
    if n < |t| {
      LaterSeparatorShowsIff(t[..n], t[n + 1..]);
    }
  }

  lemma {:induction false} OldNamesStoreNothing(params: map<string, string>, args: seq<string>)
    requires forall arg :: arg in args ==> arg == "" || NameOf(arg) in params
    ensures StoreAll(params, args) == params
    decreases |args|
  {
    if args != [] {
      assert args[0] in args;
      StoreInserts(params, args[0]);
      OldNamesStoreNothing(params, args[1..]);
    }
  }

  lemma {:induction false} NamesStored(params: map<string, string>, args: seq<string>)
    ensures forall arg :: arg in args && arg != "" ==> NameOf(arg) in StoreAll(params, args)
    decreases |args|
  {
    if args != [] {
      StoreInserts(params, args[0]);
      NamesStored(Store(params, args[0]), args[1..]);
      if args[0] != "" {
        StoredStays(Store(params, args[0]), args[1..], NameOf(args[0]));
      }
      assert args == [args[0]] + args[1..];
    }
  }

  /** All arguments that are not empty have the name of the first, and the second has a '='. */
  ghost predicate OneName(x: string, y: string) {
    && x != "" && '=' in y[..CSpan(y, {'&'})]
    && forall arg :: arg in SplitAt(y, '&') ==> arg == "" || NameOf(arg) == NameOf(x)
  }

  lemma OneNameHides(x: string, y: string)
    requires OneName(x, y) && '&' in y
    ensures StoreAll(map[], [x] + [y]) == StoreAll(map[], [x] + SplitAt(y, '&'))
  {
    var p := Store(map[], x);
    StoreInserts(map[], x);
    StoreAllCons(map[], x, [y]);
    StoreAllCons(map[], x, SplitAt(y, '&'));
    NameOfRest(y);
    assert SplitAt(y, '&')[0] in SplitAt(y, '&');
    OldNamesStoreNothing(p, [y]);
    OldNamesStoreNothing(p, SplitAt(y, '&'));
  }

  lemma HiddenIsOneName(x: string, y: string)
    requires '&' !in x && '&' in y
    requires StoreAll(map[], [x] + [y]) == StoreAll(map[], [x] + SplitAt(y, '&'))
    ensures OneName(x, y)
  {
    if x == "" || NameOf(x) != NameOf(y) {
      LaterAmpersandShows(x, y);
    }
    NameOfRest(y);
    InNameOrValue(x, '&');
    var p := Store(map[], x);
    StoreInserts(map[], x);
    StoreAllCons(map[], x, [y]);
    OldNamesStoreNothing(p, [y]);
    NamesStored(map[], [x] + SplitAt(y, '&'));
  }

  lemma HiddenIffOneName(x: string, y: string)
    requires '&' !in x
    ensures StoreAll(map[], [x] + [y]) == StoreAll(map[], [x] + SplitAt(y, '&')) <==>
            ('&' in y ==> OneName(x, y))
  {
    if '&' !in y {
      OneArgument(y, '&');
    } else if OneName(x, y) {
      OneNameHides(x, y);
    } else if StoreAll(map[], [x] + [y]) == StoreAll(map[], [x] + SplitAt(y, '&')) {
      HiddenIsOneName(x, y);
    }
  }

  /**
   Whatever the names, where no 'c' follows the first '&': what is stored is what was meant exactly when no
   '&' follows either, or all that follows has the name of the first argument.
   */
  lemma StoredAsMeantWithoutCIff(t: string)
    requires var n := CSpan(t, {'&'}); n < |t| ==> 'c' !in t[n + 1..]
    ensures StoreAll(map[], Arguments(t, LATER_SEPARATOR)) == StoreAll(map[], SplitAt(t, '&')) <==>
            var n := CSpan(t, {'&'});
            n < |t| && '&' in t[n + 1..] ==> OneName(t[..n], t[n + 1..])
  {
    var n := CSpan(t, {'&'});
    if n < |t| {
      OneArgument(t[n + 1..], 'c');
      HiddenIffOneName(t[..n], t[n + 1..]);
    }
  }

  lemma FirstSplitOff(x: string, t: string)
    requires '&' !in x
    ensures SplitAt(x + ("&" + t), '&') == [x] + SplitAt(t, '&')
  {
    SplitHead(x, "&" + t, '&');
    assert ("&" + t)[1..] == t;
  }

  lemma AsMeant(n: string, v: string, m: string, w: string, rest: string)
    requires '=' !in n + m && '&' !in n + v && '&' !in m + w
    ensures var t := (n + ("=" + v)) + ("&" + ((m + ("=" + w)) + ("&" + rest)));
            StoreAll(map[], Arguments(t, '&')) == StoreAll(InsertFirst(map[n := v], m, w), SplitAt(rest, '&'))
  {
    var x, y := n + ("=" + v), m + ("=" + w);
    MeantIsSplit(x + ("&" + (y + ("&" + rest))));
    FirstSplitOff(x, y + ("&" + rest));
    FirstSplitOff(y, rest);
    PairStores(map[], n, v);
    PairStores(map[n := v], m, w);
    StoreAllCons(map[], x, [y] + SplitAt(rest, '&'));
    StoreAllCons(map[n := v], y, SplitAt(rest, '&'));
  }

  lemma TwoStores(params: map<string, string>, x: string, y: string)
    ensures StoreAll(params, [x] + [y]) == Store(Store(params, x), y)
  {
    StoreAllCons(params, x, [y]);
    StoreAllCons(Store(params, x), y, []);
    assert [y] + [] == [y];
  }

  lemma WrittenArguments(t: string, x: string, y: string)
    requires '&' !in x && 'c' !in y && t == x + ("&" + y)
    ensures Arguments(t, 'c') == [x] + [y]
  {
    SpanOver(x, "&" + y, {'&'});
    assert t[..|x|] == x && t[|x| + 1..] == y;
    SplitHead(y, "", 'c');
    assert y + "" == y;
  }

  lemma AsWritten(n: string, v: string, m: string, w: string)
    requires '=' !in n + m && '&' !in n + v && 'c' !in m + w
    ensures StoreAll(map[], Arguments((n + ("=" + v)) + ("&" + (m + ("=" + w))), LATER_SEPARATOR))
         == InsertFirst(map[n := v], m, w)
  {
    var x, y := n + ("=" + v), m + ("=" + w);
    WrittenArguments(x + ("&" + y), x, y);
    PairStores(map[], n, v);
    PairStores(map[n := v], m, w);
    TwoStores(map[], x, y);
  }

  /** The third argument, and all after it, end up inside the value of the second. */
  lemma ThirdArgumentSwallowed(n: string, v: string, m: string, w: string, rest: string)
    requires '=' !in n + m && '&' !in n + v && '&' !in m + w && 'c' !in m + w && 'c' !in rest
    ensures var t := (n + ("=" + v)) + ("&" + ((m + ("=" + w)) + ("&" + rest)));
            && StoreAll(map[], Arguments(t, LATER_SEPARATOR)) == InsertFirst(map[n := v], m, w + ("&" + rest))
            && StoreAll(map[], Arguments(t, '&')) == StoreAll(InsertFirst(map[n := v], m, w), SplitAt(rest, '&'))
  {
    AsWritten(n, v, m, w + ("&" + rest));
    assert (m + ("=" + w)) + ("&" + rest) == m + ("=" + (w + ("&" + rest)));
    AsMeant(n, v, m, w, rest);
  }
}
