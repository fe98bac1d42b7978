/** Handler dispatch: a scan of an ordered multimap that routes by longest prefix. */
module Dispatch {
  import opened Text
  import opened Ordering

  type Handler = nat

  /** A null handler pointer is `None`. */
  datatype Entry = Entry(key: string, handler: Option<Handler>)

  /** `std::multimap::insert`: after every entry whose key is not greater. */
  function Insert(m: seq<Entry>, e: Entry): seq<Entry> {
    if m == [] || Less(e.key, m[0].key) then [e] + m else [m[0]] + Insert(m[1..], e)
  }

  ghost predicate Sorted(m: seq<Entry>) {
    forall i, j :: 0 <= i < j < |m| ==> !Less(m[j].key, m[i].key)
  }

  /** `equal_range`. */
  function EqualRange(m: seq<Entry>, key: string): seq<Entry> {
    if m == [] then [] else (if m[0].key == key then [m[0]] else []) + EqualRange(m[1..], key)
  }

  predicate Fires(e: Entry, uri: string, exact: bool) {
    e.handler.Some? && e.key != "" && if exact then e.key == uri else e.key <= uri
  }

  /** The last entry, in the order of the map, that fires. */
  function LastFiring(m: seq<Entry>, uri: string, exact: bool): (r: Option<Entry>)
    ensures r.Some? ==> Fires(r.value, uri, exact) && r.value in m
    ensures r.None? ==> forall e :: e in m ==> !Fires(e, uri, exact)
  {
    if m == [] then None
    else
      var r := LastFiring(m[1..], uri, exact);
      if r.Some? then r else if Fires(m[0], uri, exact) then Some(m[0]) else None
  }

  function HandlerOf(e: Option<Entry>): Option<Handler> {
    if e.Some? then e.value.handler else None
  }

  // ----- the server

  datatype Error = OutOfRange

  /** What a scan ends with that has come to the `i`th entry with `fired`. */
  function Scanned(m: seq<Entry>, i: nat, uri: string, exact: bool, fired: Option<Handler>): Option<Handler>
    requires i <= |m|
  {
    var r := LastFiring(m[i..], uri, exact);
    if r.Some? then HandlerOf(r) else fired
  }

  lemma ScanStarts(m: seq<Entry>, uri: string, exact: bool)
    ensures Scanned(m, 0, uri, exact, None) == HandlerOf(LastFiring(m, uri, exact))
  {
    assert m[0..] == m;
  }

  lemma ScanStep(m: seq<Entry>, i: nat, uri: string, exact: bool, fired: Option<Handler>)
    requires i < |m|
    ensures Scanned(m, i, uri, exact, fired)
         == Scanned(m, i + 1, uri, exact, if Fires(m[i], uri, exact) then m[i].handler else fired)
  {
    assert m[i..][1..] == m[i + 1..];
  }

  lemma {:induction false} EqualRangeFires(m: seq<Entry>, uri: string)
    ensures LastFiring(EqualRange(m, uri), uri, true) == LastFiring(m, uri, true)
  {
    if m != [] {
      EqualRangeFires(m[1..], uri);
      if m[0].key == uri {
        assert EqualRange(m, uri)[1..] == EqualRange(m[1..], uri);
      } else {
        assert EqualRange(m, uri) == EqualRange(m[1..], uri);
      }
    }
  }

  lemma {:induction false} EqualRangeKeys(m: seq<Entry>, key: string, i: nat)
    requires i < |EqualRange(m, key)|
    ensures EqualRange(m, key)[i].key == key
  {
    if m[0].key != key {
      EqualRangeKeys(m[1..], key, i);
    } else if i > 0 {
      EqualRangeKeys(m[1..], key, i - 1);
    }
  }

  function Registered(maps: (seq<Entry>, seq<Entry>), r: Entry): (seq<Entry>, seq<Entry>) {
    if r.key == "" || r.key[0] != '=' then (maps.0, Insert(maps.1, r))
    else if |r.key| < 2 then maps
    else (Insert(maps.0, Entry(r.key[2..], r.handler)), maps.1)
  }

  class Server {
    var exactLocations: seq<Entry>
    var locations: seq<Entry>

    constructor ()
      ensures exactLocations == [] && locations == []
    {
      exactLocations, locations := [], [];
    }

    /** `sizeof("=")` counts the terminating NUL, so two characters are cut off; of a lone "=" that throws. */
    method AddHandlerMapping(uri: string, handler: Option<Handler>) returns (error: Option<Error>)
      modifies this
      ensures error.Some? <==> uri == "="
      ensures (exactLocations, locations) == Registered(old((exactLocations, locations)), Entry(uri, handler))
    {
      error := None;
      if uri != "" && uri[0] == '=' {
        if |uri| < 2 {
          error := Some(OutOfRange);
        } else {
          exactLocations := Insert(exactLocations, Entry(uri[2..], handler));
        }
      } else {
        locations := Insert(locations, Entry(uri, handler));
      }
    }

    /** The handler that is called, or `None` when "not found" is thrown. */
    method InvokeHandler(uri: string) returns (fired: Option<Handler>)
      ensures fired == var x := LastFiring(exactLocations, uri, true);
                       HandlerOf(if x.Some? then x else LastFiring(locations, uri, false))
    {
      var matchedPrefix := "";
      var toInvoke := EqualRange(exactLocations, uri);
      EqualRangeFires(exactLocations, uri);
      fired := None;
      var i := 0;
      ScanStarts(toInvoke, uri, true);
      while i != |toInvoke|
        invariant 0 <= i <= |toInvoke|
        invariant Scanned(toInvoke, i, uri, true, fired) == HandlerOf(LastFiring(toInvoke, uri, true))
        decreases |toInvoke| - i
      {
        ScanStep(toInvoke, i, uri, true, fired);
        EqualRangeKeys(exactLocations, uri, i);
        if toInvoke[i].handler.Some? {
          if |matchedPrefix| < |toInvoke[i].key| {
            fired := toInvoke[i].handler;
          }
        }
        i := i + 1;
      }
      if fired.Some? {
        return;
      }
      i := 0;
      ScanStarts(locations, uri, false);
      while i != |locations|
        invariant 0 <= i <= |locations|
        invariant Scanned(locations, i, uri, false, fired) == HandlerOf(LastFiring(locations, uri, false))
        decreases |locations| - i
      {
        ScanStep(locations, i, uri, false, fired);
        if locations[i].key <= uri && locations[i].handler.Some? {
          if |matchedPrefix| < |locations[i].key| {
            fired := locations[i].handler;
          }
        }
        i := i + 1;
      }
    }
  }

  // ----- what the registrations ask for

  /** The two maps after a sequence of registrations, oldest first. */
  function Maps(rs: seq<Entry>): (seq<Entry>, seq<Entry>) {
    if rs == [] then ([], []) else Registered(Maps(rs[..|rs| - 1]), rs[|rs| - 1])
  }

  predicate IsExact(r: Entry) {
    2 <= |r.key| && r.key[0] == '='
  }

  /**
   Whether a registration serves a URI at all: an exact location what follows its first two characters, a
   prefix every URI that begins with it.
   */
  predicate Serves(r: Entry, uri: string, exact: bool) {
    && r.handler.Some? && r.key != ""
    && if exact then r.key[0] == '=' && 2 < |r.key| && r.key[2..] == uri
       else r.key[0] != '=' && |r.key| <= |uri| && uri[..|r.key|] == r.key
  }

  /** The best of the registrations: the longest, and of equally long ones the latest. */
  ghost predicate IsBest(rs: seq<Entry>, uri: string, exact: bool, i: nat) {
    && i < |rs| && Serves(rs[i], uri, exact)
    && forall j :: 0 <= j < |rs| && Serves(rs[j], uri, exact) ==>
         |rs[j].key| < |rs[i].key| || (|rs[j].key| == |rs[i].key| && j <= i)
  }

  lemma {:induction false} InsertSorted(m: seq<Entry>, e: Entry)
    requires Sorted(m)
    ensures Sorted(Insert(m, e))
    ensures forall x :: x in Insert(m, e) <==> x in m || x == e
    decreases |m|
  {
    if m == [] {
    } else if Less(e.key, m[0].key) {
      forall j | 0 <= j < |m| ensures !Less(m[j].key, e.key) {
        if Less(m[j].key, e.key) {
          LessIsTransitive(m[j].key, e.key, m[0].key);
          LessIsTotal(m[j].key, m[0].key);
        }
      }
    } else {
      InsertSorted(m[1..], e);
      var t := Insert(m[1..], e);
      assert m == [m[0]] + m[1..];
      forall j | 0 <= j < |t| ensures !Less(t[j].key, m[0].key) {
        assert t[j] in m[1..] || t[j] == e;
      }
    }
  }

  lemma LessAtMost(a: string, b: string, c: string)
    requires Less(a, b) && (b == c || !Less(c, b))
    ensures Less(a, c)
  {
    LessIsTotal(b, c);
    if b != c {
      LessIsTransitive(a, b, c);
    }
  }

  /** What one more entry does to the last that fires: it takes over unless its key comes first. */
  lemma {:induction false} InsertFires(m: seq<Entry>, e: Entry, uri: string, exact: bool)
    requires Sorted(m)
    ensures var x := LastFiring(m, uri, exact);
            LastFiring(Insert(m, e), uri, exact) ==
            if Fires(e, uri, exact) && (x.None? || !Less(e.key, x.value.key)) then Some(e) else x
    decreases |m|
  {
    var x := LastFiring(m, uri, exact);
    if m == [] || Less(e.key, m[0].key) {
      assert ([e] + m)[1..] == m;
      if x.Some? {
        var k :| 0 <= k < |m| && m[k] == x.value;
        LessAtMost(e.key, m[0].key, m[k].key);
      }
    } else {
      InsertFires(m[1..], e, uri, exact);
      assert ([m[0]] + Insert(m[1..], e))[1..] == Insert(m[1..], e);
    }
  }

  lemma {:induction false} MapsSorted(rs: seq<Entry>)
    ensures Sorted(Maps(rs).0) && Sorted(Maps(rs).1)
    decreases |rs|
  {
    if rs != [] {
      var before, r := Maps(rs[..|rs| - 1]), rs[|rs| - 1];
      MapsSorted(rs[..|rs| - 1]);
      if IsExact(r) {
        InsertSorted(before.0, Entry(r.key[2..], r.handler));
      } else {
        InsertSorted(before.1, r);
      }
    }
  }

  function Key(r: Entry, exact: bool): string {
    if exact && IsExact(r) then r.key[2..] else r.key
  }

  function MapFor(rs: seq<Entry>, exact: bool): seq<Entry> {
    if exact then Maps(rs).0 else Maps(rs).1
  }

  /** `x`, the last entry of a map that fires, is the best registration. */
  ghost predicate FiresBest(rs: seq<Entry>, uri: string, exact: bool, x: Option<Entry>) {
    if x.None? then forall i :: 0 <= i < |rs| ==> !Serves(rs[i], uri, exact)
    else exists i: nat :: IsBest(rs, uri, exact, i) && x == Some(Entry(Key(rs[i], exact), rs[i].handler))
  }

  /** The step of the induction: the newest registration against the best of the older ones. */
  lemma NewestAgainstBest(rs: seq<Entry>, uri: string, exact: bool, x: Option<Entry>)
    requires rs != [] && FiresBest(rs[..|rs| - 1], uri, exact, x)
    ensures var r := rs[|rs| - 1];
            var e := Entry(Key(r, exact), r.handler);
            FiresBest(rs, uri, exact,
              if Serves(r, uri, exact) && (x.None? || !Less(e.key, x.value.key)) then Some(e) else x)
  {
    var n := |rs| - 1;
    var before, r := rs[..n], rs[n];
    assert forall i :: 0 <= i < n ==> before[i] == rs[i];
    if x.Some? {
      var i: nat :| IsBest(before, uri, exact, i) && x == Some(Entry(Key(before[i], exact), before[i].handler));
      if Serves(r, uri, exact) {
        PrefixOrder(Key(r, exact), Key(rs[i], exact), uri);
      }
      if Serves(r, uri, exact) && |rs[i].key| <= |r.key| {
        assert IsBest(rs, uri, exact, n);
      } else {
        assert IsBest(rs, uri, exact, i);
      }
    } else if Serves(r, uri, exact) {
      assert IsBest(rs, uri, exact, n);
    }
  }

  lemma {:induction false} ScanFindsBest(rs: seq<Entry>, uri: string, exact: bool)
    ensures FiresBest(rs, uri, exact, LastFiring(MapFor(rs, exact), uri, exact))
    decreases |rs|
  {
    if rs != [] {
      var before, r := rs[..|rs| - 1], rs[|rs| - 1];
      ScanFindsBest(before, uri, exact);
      MapsSorted(before);
      var m, e := MapFor(before, exact), Entry(Key(r, exact), r.handler);
      if MapFor(rs, exact) == Insert(m, e) {
        InsertFires(m, e, uri, exact);
      }
      var x := LastFiring(m, uri, exact);
      NewestAgainstBest(rs, uri, exact, x);
    }
  }

  /** What a server with these registrations fires for a URI. */
  function Fired(rs: seq<Entry>, uri: string): Option<Handler> {
    var x := LastFiring(Maps(rs).0, uri, true);
    HandlerOf(if x.Some? then x else LastFiring(Maps(rs).1, uri, false))
  }

  /**
   Longest-prefix routing: an exact location takes priority; otherwise the longest registered prefix
   with a handler fires, the latest of equal ones; and nothing is found exactly when nothing serves.
   */
  lemma DispatchIsLongestPrefix(rs: seq<Entry>, uri: string)
    ensures Fired(rs, uri).None? <==>
            forall i :: 0 <= i < |rs| ==> !Serves(rs[i], uri, true) && !Serves(rs[i], uri, false)
    ensures Fired(rs, uri).Some? ==>
              exists i: nat, exact: bool ::
                && IsBest(rs, uri, exact, i) && Fired(rs, uri) == rs[i].handler
                && (!exact ==> forall j :: 0 <= j < |rs| ==> !Serves(rs[j], uri, true))
  {
    ScanFindsBest(rs, uri, true);
    ScanFindsBest(rs, uri, false);
  }

  /** An exact location "=" + path answers the path without its first character, and not the path. */
  lemma ExactLocationLosesSlash(path: string, h: Handler, uri: string)
    requires path != ""
    ensures Fired([Entry("=" + path, Some(h))], uri) == Some(h) <==> uri != "" && uri == path[1..]
  {
    var r := Entry("=" + path, Some(h));
    var k := Entry(r.key[2..], Some(h));
    assert r.key[2..] == path[1..];
    assert [r][..0] == [];
    assert Maps([r]) == Registered(([], []), r);
    assert Insert([], k) == [k];
    assert LastFiring([k], uri, true) == if Fires(k, uri, true) then Some(k) else None by {
      assert [k][1..] == [];
    }
  }

  // ----- as meant

  /** With one more character, the two cut off it leave what a cut of one would have left. */
  function MeantEntry(r: Entry): Entry {
    if r.key != "" && r.key[0] == '=' then Entry("=" + r.key, r.handler) else r
  }

  /** Registrations served as these would be if an exact location lost its '=' only. */
  function Meant(rs: seq<Entry>): (ms: seq<Entry>)
    ensures |ms| == |rs| && forall i :: 0 <= i < |rs| ==> ms[i] == MeantEntry(rs[i])
  {
    if rs == [] then [] else Meant(rs[..|rs| - 1]) + [MeantEntry(rs[|rs| - 1])]
  }

  /** An exact location with this path, or with one more character before it. */
  predicate IsAbout(r: Entry, uri: string) {
    r.handler.Some? && r.key != "" && r.key[0] == '=' && (r.key[1..] == uri || (|r.key| >= 2 && r.key[2..] == uri))
  }

  ghost predicate DistinctHandlers(rs: seq<Entry>) {
    forall i, j :: 0 <= i < j < |rs| && rs[i].handler.Some? ==> rs[i].handler != rs[j].handler
  }

  lemma MeantServes(r: Entry, uri: string)
    ensures Serves(MeantEntry(r), uri, true) <==>
            uri != "" && r.handler.Some? && r.key != "" && r.key[0] == '=' && r.key[1..] == uri
  {
    assert r.key != "" ==> ("=" + r.key)[2..] == r.key[1..];
  }

  lemma {:induction false} MeantPrefixes(rs: seq<Entry>)
    ensures Maps(Meant(rs)).1 == Maps(rs).1
    decreases |rs|
  {
    if rs != [] {
      var before := rs[..|rs| - 1];
      assert Meant(rs)[..|rs| - 1] == Meant(before);
      MeantPrefixes(before);
    }
  }

  /** Nothing is different for a URI that no exact location is about. */
  lemma OthersServedAsMeant(rs: seq<Entry>, uri: string)
    requires uri == "" || forall i :: 0 <= i < |rs| ==> !IsAbout(rs[i], uri)
    ensures Fired(rs, uri) == Fired(Meant(rs), uri)
  {
    ScanFindsBest(rs, uri, true);
    ScanFindsBest(Meant(rs), uri, true);
    MeantPrefixes(rs);
    forall i | 0 <= i < |rs| ensures !Serves(rs[i], uri, true) && !Serves(Meant(rs)[i], uri, true) {
      MeantServes(rs[i], uri);
    }
  }

  /** The registration whose handler is called. */
  lemma FiredBy(rs: seq<Entry>, uri: string) returns (i: nat)
    requires exists j :: 0 <= j < |rs| && Serves(rs[j], uri, true)
    ensures i < |rs| && Serves(rs[i], uri, true) && Fired(rs, uri) == rs[i].handler
  {
    ScanFindsBest(rs, uri, true);
    var x := LastFiring(Maps(rs).0, uri, true);
    i :| IsBest(rs, uri, true, i) && x == Some(Entry(Key(rs[i], true), rs[i].handler));
  }

  lemma FiredByAny(rs: seq<Entry>, uri: string) returns (i: nat)
    requires Fired(rs, uri).Some?
    ensures i < |rs| && (Serves(rs[i], uri, true) || Serves(rs[i], uri, false)) && Fired(rs, uri) == rs[i].handler
  {
    DispatchIsLongestPrefix(rs, uri);
    var exact: bool;
    i, exact :| IsBest(rs, uri, exact, i) && Fired(rs, uri) == rs[i].handler;
  }

  /** An exact location is not called for a URI of one character less or more than it is called for. */
  lemma NotTheSame(r: Entry, uri: string)
    ensures Serves(r, uri, true) ==> !Serves(MeantEntry(r), uri, true) && !Serves(MeantEntry(r), uri, false)
    ensures Serves(MeantEntry(r), uri, true) ==> !Serves(r, uri, true) && !Serves(r, uri, false)
  {
    MeantServes(r, uri);
  }

  ghost predicate SameHandlers(a: seq<Entry>, b: seq<Entry>) {
    |a| == |b| && forall i :: 0 <= i < |a| ==> a[i].handler == b[i].handler
  }

  /** Two servers call different handlers if those that one calls an exact location for do not serve the other. */
  lemma DifferentCalls(a: seq<Entry>, b: seq<Entry>, uri: string)
    requires SameHandlers(a, b) && DistinctHandlers(a)
    requires exists k :: 0 <= k < |a| && Serves(a[k], uri, true)
    requires forall k :: 0 <= k < |a| && Serves(a[k], uri, true) ==>
               !Serves(b[k], uri, true) && !Serves(b[k], uri, false)
    ensures Fired(a, uri) != Fired(b, uri)
  {
    var i := FiredBy(a, uri);
    if Fired(b, uri).Some? {
      var j := FiredByAny(b, uri);
      assert a[j].handler == b[j].handler && i != j;
      assert a[i].handler != a[j].handler;
    }
  }

  lemma AboutServes(r: Entry, uri: string)
    requires uri != "" && IsAbout(r, uri)
    ensures Serves(MeantEntry(r), uri, true) || Serves(r, uri, true)
  {
    MeantServes(r, uri);
  }

  lemma NoneTheSame(rs: seq<Entry>, ms: seq<Entry>, uri: string)
    requires |ms| == |rs| && forall i :: 0 <= i < |rs| ==> ms[i] == MeantEntry(rs[i])
    ensures forall i :: 0 <= i < |rs| && Serves(rs[i], uri, true) ==>
              !Serves(ms[i], uri, true) && !Serves(ms[i], uri, false)
    ensures forall i :: 0 <= i < |rs| && Serves(ms[i], uri, true) ==>
              !Serves(rs[i], uri, true) && !Serves(rs[i], uri, false)
  {
    forall i | 0 <= i < |rs|
      ensures Serves(rs[i], uri, true) ==> !Serves(ms[i], uri, true) && !Serves(ms[i], uri, false)
      ensures Serves(ms[i], uri, true) ==> !Serves(rs[i], uri, true) && !Serves(rs[i], uri, false)
    {
      NotTheSame(rs[i], uri);
    }
  }

  lemma AboutIsMisserved(rs: seq<Entry>, uri: string, k: nat)
    requires DistinctHandlers(rs) && uri != "" && k < |rs| && IsAbout(rs[k], uri)
    ensures Fired(rs, uri) != Fired(Meant(rs), uri)
  {
    var ms := Meant(rs);
    NoneTheSame(rs, ms, uri);
    AboutServes(rs[k], uri);
    assert SameHandlers(rs, ms) && SameHandlers(ms, rs) && DistinctHandlers(ms);
    if Serves(ms[k], uri, true) {
      DifferentCalls(ms, rs, uri);
    } else {
      DifferentCalls(rs, ms, uri);
    }
  }

  /**
   For every list of registrations: the cut of two characters shows exactly for the URIs that some exact
   location with a handler is about, and no exact location answers its own path.
   */
  lemma ExactLocationsMisservedIff(rs: seq<Entry>, uri: string)
    ensures uri == "" || (forall i :: 0 <= i < |rs| ==> !IsAbout(rs[i], uri)) ==>
              Fired(rs, uri) == Fired(Meant(rs), uri)
    ensures DistinctHandlers(rs) && Fired(rs, uri) == Fired(Meant(rs), uri) ==>
              uri == "" || (forall i :: 0 <= i < |rs| ==> !IsAbout(rs[i], uri))
    ensures forall i :: 0 <= i < |rs| && IsExact(rs[i]) ==>
              !Serves(rs[i], rs[i].key[1..], true) && !Serves(rs[i], rs[i].key[1..], false)
  {
    if uri == "" || forall i :: 0 <= i < |rs| ==> !IsAbout(rs[i], uri) {
      OthersServedAsMeant(rs, uri);
    } else if DistinctHandlers(rs) {
      var k: nat :| k < |rs| && IsAbout(rs[k], uri);
      AboutIsMisserved(rs, uri, k);
    }
  }
}
