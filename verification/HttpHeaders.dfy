/** The header map of HTTP messages: printing it, parsing it, looking keys up. */
module HttpHeaders {
  import opened Bytes
  import opened Strings

  const CRLF: Bytes := "\r\n"
  const HEADER_END: Bytes := "\r\n\r\n"
  const COLON: Bytes := ":"
  const COLON_BLANK: Bytes := ": "

  type HeaderMap = map<Bytes, Bytes>

  type Entry = (Bytes, Bytes)

  /** Every piece with a separator behind it. */
  function Terminated(pieces: seq<Bytes>, sep: Bytes): Bytes {
    if pieces == [] then [] else Terminated(pieces[..|pieces| - 1], sep) + pieces[|pieces| - 1] + sep
  }

  /** The header lines of the entries, in their order. */
  function Printed(entries: seq<Entry>): Bytes {
    Terminated(Items(entries, COLON_BLANK), CRLF)
  }

  // ----- parsing -----

  function ParseLine(line: Bytes): Option<Entry> {
    match Find(line, COLON, 0)
    case None => None
    case Some(k) =>
      var key := Trim(line[..k]);
      if k == 0 || key == [] then None else Some((key, Trim(line[k + 1..])))
  }

  /** All lines, one after the other, into `m`; nothing if one of them is malformed. */
  function ParseLines(m: HeaderMap, lines: seq<Bytes>): Option<HeaderMap> {
    if lines == [] then Some(m)
    else
      match (ParseLines(m, lines[..|lines| - 1]), ParseLine(lines[|lines| - 1]))
      case (Some(h), Some(e)) => Some(h[Lower(e.0) := e.1])
      case _ => None
  }

  /** `parseHttpRequestHeader`. */
  function ParseHeaders(m: HeaderMap, headers: Bytes): Option<HeaderMap> {
    ParseLines(m, Split(headers, CRLF))
  }

  /** What an entry must be for its line to be read back: a trimmed lower-case key without a
      colon, a trimmed value, and no line break in either. */
  ghost predicate Printable(e: Entry) {
    && e.0 != [] && Trimmed(e.0) && Lower(e.0) == e.0 && Free(e.0, COLON) && Free(e.0, CRLF)
    && Trimmed(e.1) && Free(e.1, CRLF)
  }

  ghost predicate AllPrintable(entries: seq<Entry>) {
    forall i :: 0 <= i < |entries| ==> Printable(entries[i])
  }

  lemma LineIsFree(e: Entry)
    requires Free(e.0, CRLF) && Free(e.1, CRLF)
    ensures Free(Item(e, COLON_BLANK), CRLF)
  {
    var line := Item(e, COLON_BLANK);
    var n := |e.0|;
    forall i | 0 <= i < |line|
      ensures !OccursAt(line, CRLF, i)
    {
      if i + 2 <= |line| {
        assert line[i..i + 2] == [line[i], line[i + 1]];
        if i + 2 <= n {
          assert e.0[i..i + 2] == [line[i], line[i + 1]];
          assert !OccursAt(e.0, CRLF, i);
        } else if i >= n + 2 {
          assert e.1[i - n - 2..i - n] == [line[i], line[i + 1]];
          assert !OccursAt(e.1, CRLF, i - n - 2);
        }
      }
    }
  }

  /** A name in front of the first colon, in any case, and a value padded in any way. */
  lemma LineParses(name: Bytes, rest: Bytes)
    requires name != [] && Trimmed(name) && Free(name, COLON)
    ensures ParseLine(name + COLON + rest) == Some((name, Trim(rest)))
  {
    var line := name + COLON + rest;
    FirstSeparator(name, COLON, rest);
    assert line[..|name|] == name && line[|name| + 1..] == rest;
    TrimPadded(name);
  }

  /** Every line: it has no colon and is refused, or the name in front of the first colon is blank and
      it is refused, or name and value are what stands around that colon, trimmed. */
  lemma LineExactly(line: Bytes)
    ensures Free(line, COLON) ==> ParseLine(line).None?
    ensures forall name, rest :: line == name + COLON + rest && Free(name, COLON) ==>
              ParseLine(line) == if AllBlank(name) then None else Some((Trim(name), Trim(rest)))
  {
    if Free(line, COLON) {
      FindNone(line, COLON, 0);
    }
    forall name, rest | line == name + COLON + rest && Free(name, COLON)
      ensures ParseLine(line) == if AllBlank(name) then None else Some((Trim(name), Trim(rest)))
    {
      FirstSeparator(name, COLON, rest);
      assert line[..|name|] == name && line[|name| + 1..] == rest;
      TrimsAll(name);
    }
  }

  lemma LineRoundTrip(e: Entry)
    requires Printable(e)
    ensures ParseLine(Item(e, COLON_BLANK)) == Some(e)
  {
    assert Item(e, COLON_BLANK) == e.0 + COLON + ([' '] + e.1);
    LineParses(e.0, [' '] + e.1);
    TrimPadded(e.1);
  }

  lemma {:induction false} ItemsAt(entries: seq<Entry>, joiner: Bytes, i: nat)
    requires i < |entries|
    ensures Items(entries, joiner)[i] == Item(entries[i], joiner)
  {
    var n := |entries| - 1;
    if i < n {
      ItemsAt(entries[..n], joiner, i);
    }
  }

  lemma ItemsFree(entries: seq<Entry>)
    requires AllPrintable(entries)
    ensures AllFree(Items(entries, COLON_BLANK), CRLF)
  {
    hide Items, Free;
    forall i | 0 <= i < |entries|
      ensures Items(entries, COLON_BLANK)[i] != [] && Free(Items(entries, COLON_BLANK)[i], CRLF)
    {
      assert Printable(entries[i]);
      ItemsAt(entries, COLON_BLANK, i);
      LineIsFree(entries[i]);
    }
  }

  lemma {:induction false} LinesRoundTrip(entries: seq<Entry>)
    requires AllPrintable(entries)
    ensures ParseLines(map[], Items(entries, COLON_BLANK)) == Some(Assigned(map[], entries))
  {
    if entries != [] {
      var init, last := entries[..|entries| - 1], entries[|entries| - 1];
      LinesRoundTrip(init);
      assert Printable(last);
      LineRoundTrip(last);
      assert Items(entries, COLON_BLANK)[..|init|] == Items(init, COLON_BLANK);
    }
  }

  /** Names in any case denote the same entry, and the last line with a name decides. */
  lemma {:induction false} LastLineDecides(lines: seq<Bytes>, key: Bytes, k: nat)
    requires ParseLines(map[], lines).Some?
    ensures forall i :: 0 <= i < |lines| ==> ParseLine(lines[i]).Some?
    ensures var m := ParseLines(map[], lines).value;
      && (key in m <==> exists i :: 0 <= i < |lines| && Lower(ParseLine(lines[i]).value.0) == key)
      && (k < |lines| && Lower(ParseLine(lines[k]).value.0) == key
          && (forall i :: k < i < |lines| ==> Lower(ParseLine(lines[i]).value.0) != key) ==>
            m[key] == ParseLine(lines[k]).value.1)
  {
    hide ParseLine, Lower;
    if lines != [] {
      var init := lines[..|lines| - 1];
      LastLineDecides(init, key, k);
      assert forall i :: 0 <= i < |init| ==> init[i] == lines[i];
    }
  }

  // ----- printing -----

  lemma Regroup(a: Bytes, t: Bytes, b: Bytes, c: Bytes)
    ensures (a + t) + b + c == a + (t + b + c)
  {
  }

  lemma {:induction false} TerminatedCons(pieces: seq<Bytes>, sep: Bytes)
    requires pieces != []
    ensures Terminated(pieces, sep) == pieces[0] + sep + Terminated(pieces[1..], sep)
  {
    var n := |pieces| - 1;
    if n == 0 {
      assert pieces[..0] == [] && pieces[1..] == [];
    } else {
      var middle := pieces[1..][..n - 1];
      TerminatedCons(pieces[..n], sep);
      assert pieces[..n][1..] == middle && pieces[..n][0] == pieces[0] && pieces[1..][n - 1] == pieces[n];
      Regroup(pieces[0] + sep, Terminated(middle, sep), pieces[n], sep);
    }
  }

  lemma {:induction false} TerminatedIsJoin(pieces: seq<Bytes>, sep: Bytes)
    requires pieces != []
    ensures Terminated(pieces, sep) == Join(pieces, sep) + sep
  {
    TerminatedCons(pieces, sep);
    if |pieces| > 1 {
      TerminatedIsJoin(pieces[1..], sep);
      assert pieces[0] + sep + (Join(pieces[1..], sep) + sep) == (pieces[0] + sep + Join(pieces[1..], sep)) + sep;
    } else {
      assert pieces[1..] == [];
      assert pieces[0] + sep + [] == pieces[0] + sep;
    }
  }

  lemma {:induction false} SplitTerminated(pieces: seq<Bytes>, sep: Bytes)
    requires Separator(sep) && AllFree(pieces, sep)
    ensures Split(Terminated(pieces, sep), sep) == pieces
  {
    if pieces == [] {
      EmptySplit([], sep);
    } else {
      TerminatedCons(pieces, sep);
      SplitTerminated(pieces[1..], sep);
      SplitFirst(pieces[0], sep, Terminated(pieces[1..], sep));
    }
  }

  /** `entries` lists the map, each key once. */
  ghost predicate Lists(entries: seq<Entry>, m: HeaderMap) {
    && (forall i :: 0 <= i < |entries| ==> entries[i].0 in m && m[entries[i].0] == entries[i].1)
    && (forall k :: k in m ==> exists i :: 0 <= i < |entries| && entries[i].0 == k)
    && (forall i, j :: 0 <= i < j < |entries| ==> entries[i].0 != entries[j].0)
  }

  lemma ListsInit(entries: seq<Entry>, m: HeaderMap)
    requires Lists(entries, m) && entries != []
    ensures Lists(entries[..|entries| - 1], m - {entries[|entries| - 1].0})
  {
    var init, key := entries[..|entries| - 1], entries[|entries| - 1].0;
    forall k | k in m && k != key
      ensures exists i :: 0 <= i < |init| && init[i].0 == k
    {
      var i :| 0 <= i < |entries| && entries[i].0 == k;
      assert init[i].0 == k;
    }
  }

  lemma {:induction false} AssignedLists(entries: seq<Entry>, m: HeaderMap)
    requires Lists(entries, m)
    ensures Assigned(map[], entries) == m
  {
    if entries != [] {
      var last := entries[|entries| - 1];
      ListsInit(entries, m);
      AssignedLists(entries[..|entries| - 1], m - {last.0});
      assert m == (m - {last.0})[last.0 := last.1];
    }
  }

  /** Parsing what was printed gives the same map, in whichever order it was printed. */
  lemma HeaderRoundTrip(entries: seq<Entry>, m: HeaderMap)
    requires Lists(entries, m) && AllPrintable(entries)
    ensures ParseHeaders(map[], Printed(entries)) == Some(m)
  {
    ItemsFree(entries);
    SplitTerminated(Items(entries, COLON_BLANK), CRLF);
    LinesRoundTrip(entries);
    AssignedLists(entries, m);
  }

  // ----- the order of a map -----

  /** `std::less` on strings. */
  predicate Below(a: Bytes, b: Bytes) {
    b != [] && (a == [] || a[0] < b[0] || (a[0] == b[0] && Below(a[1..], b[1..])))
  }

  lemma {:induction false} BelowTotal(a: Bytes, b: Bytes)
    ensures a == b || Below(a, b) || Below(b, a)
    ensures !(Below(a, b) && Below(b, a)) && !Below(a, a)
  {
    if a != [] {
      BelowTotal(a[1..], a[1..]);
      if b != [] {
        BelowTotal(a[1..], b[1..]);
        assert a == [a[0]] + a[1..] && b == [b[0]] + b[1..];
      }
    }
  }

  lemma {:induction false} BelowTransitive(a: Bytes, b: Bytes, c: Bytes)
    requires Below(a, b) && Below(b, c)
    ensures Below(a, c)
  {
    if a != [] && a[0] == b[0] == c[0] {
      BelowTransitive(a[1..], b[1..], c[1..]);
    }
  }

  ghost predicate Ascending(entries: seq<Entry>) {
    forall i, j :: 0 <= i < j < |entries| ==> Below(entries[i].0, entries[j].0)
  }

  ghost predicate IsLeast(k: Bytes, keys: set<Bytes>) {
    k in keys && forall j :: j in keys ==> j == k || Below(k, j)
  }

  lemma {:induction false} Least(keys: set<Bytes>) returns (k: Bytes)
    requires keys != {}
    ensures IsLeast(k, keys)
    decreases keys
  {
    var some :| some in keys;
    k := some;
    if keys != {some} {
      var r := Least(keys - {some});
      BelowTotal(some, r);
      k := if Below(some, r) then some else r;
      forall j | j in keys
        ensures j == k || Below(k, j)
      {
        if j != some && j != r && Below(some, r) {
          BelowTransitive(some, r, j);
        }
      }
    }
  }

  lemma LastIsGreatest(entries: seq<Entry>, m: HeaderMap, k: Bytes)
    requires Lists(entries, m) && Ascending(entries) && k in m
    ensures entries != [] && (k == entries[|entries| - 1].0 || Below(k, entries[|entries| - 1].0))
  {
    hide Below;
    var i :| 0 <= i < |entries| && entries[i].0 == k;
  }

  lemma BothOrNone(a: seq<Entry>, b: seq<Entry>, m: HeaderMap)
    requires Lists(a, m) && Lists(b, m)
    ensures b != [] ==> a != []
  {
    if b != [] {
      assert b[0].0 in m;
    }
  }

  /** The order fixes the listing, so a map is printed in one way only. */
  lemma {:induction false} OneListing(a: seq<Entry>, b: seq<Entry>, m: HeaderMap)
    requires Lists(a, m) && Ascending(a) && Lists(b, m) && Ascending(b)
    ensures a == b
    decreases |a|
  {
    hide Below;
    BothOrNone(a, b, m);
    BothOrNone(b, a, m);
    if a != [] {
      assert a[|a| - 1].0 in m;
      LastIsGreatest(b, m, a[|a| - 1].0);
      var x, y := a[|a| - 1], b[|b| - 1];
      LastIsGreatest(a, m, y.0);
      BelowTotal(x.0, y.0);
      assert x == y;
      ListsInit(a, m);
      ListsInit(b, m);
      hide Lists, Ascending;
      InitAscends(a);
      InitAscends(b);
      OneListing(a[..|a| - 1], b[..|b| - 1], m - {x.0});
      assert a == a[..|a| - 1] + [x] && b == b[..|b| - 1] + [y];
    }
  }

  lemma InitAscends(entries: seq<Entry>)
    requires Ascending(entries) && entries != []
    ensures Ascending(entries[..|entries| - 1])
  {
    hide Below;
  }

  /** All keys listed come before all of `keys`. */
  ghost predicate Before(entries: seq<Entry>, keys: set<Bytes>) {
    forall i, j :: 0 <= i < |entries| && j in keys ==> Below(entries[i].0, j)
  }

  lemma AscendingMore(entries: seq<Entry>, keys: set<Bytes>, k: Bytes, v: Bytes)
    requires Ascending(entries) && Before(entries, keys) && IsLeast(k, keys)
    ensures Ascending(entries + [(k, v)]) && Before(entries + [(k, v)], keys - {k})
  {
    hide Below;
  }

  // ----- lengths -----

  function LineLength(k: Bytes, v: Bytes): nat {
    |k| + 2 + |v| + 2
  }

  /** The length of all lines, whatever their order. */
  ghost function Total(m: HeaderMap): nat {
    if m == map[] then 0
    else
      var k :| k in m;
      LineLength(k, m[k]) + Total(m - {k})
  }

  lemma {:induction false} TotalRemove(m: HeaderMap, k: Bytes)
    requires k in m
    ensures Total(m) == LineLength(k, m[k]) + Total(m - {k})
    decreases m
  {
    var j :| j in m && Total(m) == LineLength(j, m[j]) + Total(m - {j});
    if j != k {
      TotalRemove(m - {j}, k);
      TotalRemove(m - {k}, j);
      assert m - {j} - {k} == m - {k} - {j};
    }
  }

  /** All ways of printing a map are equally long. */
  lemma {:induction false} PrintedLength(entries: seq<Entry>, m: HeaderMap)
    requires Lists(entries, m)
    ensures |Printed(entries)| == Total(m)
  {
    if entries == [] {
      assert m == map[];
    } else {
      var init, last := entries[..|entries| - 1], entries[|entries| - 1];
      ListsInit(entries, m);
      PrintedLength(init, m - {last.0});
      TotalRemove(m, last.0);
      assert Items(entries, COLON_BLANK)[..|init|] == Items(init, COLON_BLANK);
    }
  }

  /** `begin` of what is left of the map. */
  method First(keys: set<Bytes>) returns (k: Bytes)
    requires keys != {}
    ensures IsLeast(k, keys)
  {
    var least := Least(keys);
    k :| k in keys && forall j :: j in keys ==> j == k || Below(k, j);
  }

  lemma NothingListed(m: HeaderMap)
    ensures Lists([], m - m.Keys) && Ascending([]) && Before([], m.Keys) && Printed([]) == []
  {
  }

  // ----- the class -----

  class HttpHeaderComm {
    var maps: HeaderMap

    constructor ()
      ensures maps == map[]
    {
      maps := map[];
    }

    /** Keys are compared without regard to case. */
    function GetValue(key: Bytes): Bytes
      reads this
    {
      if Lower(key) in maps then maps[Lower(key)] else []
    }

    method SetKeyValue(key: Bytes, value: Bytes)
      modifies this
      ensures maps == old(maps)[Lower(key) := value]
      ensures forall k :: GetValue(k) == if Lower(k) == Lower(key) then value else old(GetValue(k))
    {
      maps := maps[Lower(key) := value];
    }

    /** The loop over a `std::map`: every entry once, keys ascending. */
    method ToHttpString() returns (text: Bytes, ghost entries: seq<Entry>)
      ensures Lists(entries, maps) && Ascending(entries) && text == Printed(entries)
    {
      hide Lists, Printed, Ascending, Before, Below;
      text, entries := [], [];
      var keys := maps.Keys;
      NothingListed(maps);
      while keys != {}
        invariant keys <= maps.Keys && text == Printed(entries)
        invariant Lists(entries, maps - keys) && Ascending(entries) && Before(entries, keys)
        decreases |keys|
      {
        var k := First(keys);
        PrintedMore(entries, k, maps[k]);
        ListsMore(entries, maps - keys, k, maps[k]);
        AscendingMore(entries, keys, k, maps[k]);
        assert maps - (keys - {k}) == (maps - keys)[k := maps[k]];
        text := text + k + COLON_BLANK + maps[k] + CRLF;
        entries := entries + [(k, maps[k])];
        keys := keys - {k};
      }
      assert maps - {} == maps;
    }

    method GetHeaderTotalLength() returns (length: nat)
      ensures forall entries :: Lists(entries, maps) ==> length == |Printed(entries)|
    {
      length := 0;
      var left := maps;
      while left != map[]
        invariant length + Total(left) == Total(maps)
        decreases |left|
      {
        var k :| k in left;
        TotalRemove(left, k);
        length := length + LineLength(k, left[k]);
        left := left - {k};
      }
      forall entries | Lists(entries, maps)
        ensures length == |Printed(entries)|
      {
        PrintedLength(entries, maps);
      }
    }
  }

  lemma PrintedMore(entries: seq<Entry>, k: Bytes, v: Bytes)
    ensures Printed(entries + [(k, v)]) == Printed(entries) + k + COLON_BLANK + v + CRLF
  {
    var all := entries + [(k, v)];
    assert all[..|entries|] == entries;
    var items := Items(all, COLON_BLANK);
    assert items[..|entries|] == Items(entries, COLON_BLANK);
  }

  lemma ListsMore(entries: seq<Entry>, m: HeaderMap, k: Bytes, v: Bytes)
    requires Lists(entries, m) && k !in m
    ensures Lists(entries + [(k, v)], m[k := v])
  {
    var all := entries + [(k, v)];
    assert all[|entries|].0 == k;
    forall j | j in m
      ensures exists i :: 0 <= i < |all| && all[i].0 == j
    {
      var i :| 0 <= i < |entries| && entries[i].0 == j;
      assert all[i].0 == j;
    }
  }
}
