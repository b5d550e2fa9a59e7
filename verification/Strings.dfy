/** Searching, splitting and trimming byte strings, as `std::string` and `StringUtil` do. */
module Strings {
  import opened Bytes

  // ----- searching -----

  predicate OccursAt(s: Bytes, pat: Bytes, i: nat) {
    i + |pat| <= |s| && s[i..i + |pat|] == pat
  }

  /** `std::string::find`. */
  function Find(s: Bytes, pat: Bytes, from: nat): (r: Option<nat>)
    ensures r.Some? ==> from <= r.value && r.value + |pat| <= |s|
    decreases |s| - from
  {
    if from + |pat| > |s| then None
    else if OccursAt(s, pat, from) then Some(from)
    else if from == |s| then None
    else Find(s, pat, from + 1)
  }

  ghost predicate Absent(s: Bytes, pat: Bytes, from: nat, to: nat) {
    forall i :: from <= i < to ==> !OccursAt(s, pat, i)
  }

  lemma {:induction false} FindMeans(s: Bytes, pat: Bytes, from: nat)
    ensures match Find(s, pat, from)
            case Some(k) => OccursAt(s, pat, k) && Absent(s, pat, from, k)
            case None => Absent(s, pat, from, |s|)
    decreases |s| - from
  {
    if from + |pat| <= |s| && from < |s| && !OccursAt(s, pat, from) {
      FindMeans(s, pat, from + 1);
    }
  }

  lemma {:induction false} FindIs(s: Bytes, pat: Bytes, from: nat, k: nat)
    requires from <= k && OccursAt(s, pat, k) && Absent(s, pat, from, k)
    ensures Find(s, pat, from) == Some(k)
    decreases k - from
  {
    if from < k {
      FindIs(s, pat, from + 1, k);
    }
  }

  lemma {:induction false} FindNone(s: Bytes, pat: Bytes, from: nat)
    requires pat != [] && Absent(s, pat, from, |s|)
    ensures Find(s, pat, from) == None
    decreases |s| - from
  {
    if from < |s| {
      FindNone(s, pat, from + 1);
    }
  }

  lemma OccursShift(p: Bytes, s: Bytes, pat: Bytes, i: nat)
    ensures OccursAt(p + s, pat, |p| + i) <==> OccursAt(s, pat, i)
  {
    if i + |pat| <= |s| {
      assert (p + s)[|p| + i..|p| + i + |pat|] == s[i..i + |pat|];
    }
  }

  lemma OccursInFront(s: Bytes, t: Bytes, pat: Bytes, i: nat)
    requires i + |pat| <= |s|
    ensures OccursAt(s + t, pat, i) <==> OccursAt(s, pat, i)
  {
    assert (s + t)[i..i + |pat|] == s[i..i + |pat|];
  }

  /** What is found stays where it is when more bytes arrive. */
  lemma FindAppend(s: Bytes, t: Bytes, pat: Bytes, from: nat)
    requires Find(s, pat, from).Some?
    ensures Find(s + t, pat, from) == Find(s, pat, from)
  {
    FindMeans(s, pat, from);
    var k := Find(s, pat, from).value;
    forall i | from <= i <= k
      ensures OccursAt(s + t, pat, i) <==> OccursAt(s, pat, i)
    {
      OccursInFront(s, t, pat, i);
    }
    FindIs(s + t, pat, from, k);
  }

  lemma {:induction false} FindShift(p: Bytes, s: Bytes, pat: Bytes, from: nat)
    ensures Find(p + s, pat, |p| + from) ==
            match Find(s, pat, from) case Some(k) => Some(|p| + k) case None => None
    decreases |s| - from
  {
    OccursShift(p, s, pat, from);
    if from < |s| {
      FindShift(p, s, pat, from + 1);
    }
  }

  /** A separator that cannot overlap itself: its first byte does not come back. */
  predicate Separator(sep: Bytes) {
    sep != [] && forall k :: 0 < k < |sep| ==> sep[k] != sep[0]
  }

  /** `s` contains no separator. */
  ghost predicate Free(s: Bytes, sep: Bytes) {
    Absent(s, sep, 0, |s|)
  }

  /** A separator behind a separator-free string is the first one. */
  lemma FirstSeparator(piece: Bytes, sep: Bytes, rest: Bytes)
    requires Separator(sep) && Free(piece, sep)
    ensures Absent(piece + sep + rest, sep, 0, |piece|)
    ensures OccursAt(piece + sep + rest, sep, |piece|)
    ensures Find(piece + sep + rest, sep, 0) == Some(|piece|)
  {
    var s := piece + sep + rest;
    assert s[|piece|..|piece| + |sep|] == sep;
    forall i | 0 <= i < |piece|
      ensures !OccursAt(s, sep, i)
    {
      if i + |sep| <= |piece| {
        assert s == piece + (sep + rest);
        OccursInFront(piece, sep + rest, sep, i);
      } else {
        assert s[|piece|] == sep[0] != sep[|piece| - i];
        assert i + |sep| <= |s| ==> s[i..i + |sep|][|piece| - i] == s[|piece|];
      }
    }
    FindIs(s, sep, 0, |piece|);
  }

  // ----- splitting -----

  function NonEmpty(item: Bytes): seq<Bytes> {
    if item == [] then [] else [item]
  }

  /** The pieces of `s` from `begin` on that are not empty. */
  function Pieces(s: Bytes, sep: Bytes, begin: nat): seq<Bytes>
    requires sep != [] && begin <= |s|
    decreases |s| - begin
  {
    match Find(s, sep, begin)
    case None => NonEmpty(s[begin..])
    case Some(end) => NonEmpty(s[begin..end]) + Pieces(s, sep, end + |sep|)
  }

  function EmplaceBack(items: seq<Bytes>, item: Bytes): seq<Bytes> {
    items + [item]
  }

  /** `substr` up to a position that was found, or to the end. */
  function SubStr(s: Bytes, begin: nat, end: Option<nat>): Bytes
    requires begin <= |s| && (end.Some? ==> begin <= end.value <= |s|)
  {
    match end
    case None => s[begin..]
    case Some(e) => s[begin..e]
  }

  function Split(s: Bytes, sep: Bytes): seq<Bytes> {
    if sep == [] then [] else Pieces(s, sep, 0)
  }

  method SplitStrToVector(str: Bytes, separator: Bytes) returns (result: seq<Bytes>)
    ensures result == Split(str, separator)
  {
    result := [];
    if str == [] || separator == [] {
      EmptySplit(str, separator);
      return;
    }
    assert Behind([], str, separator, 0) == Split(str, separator);
    hide *;
    var begin := 0;
    while begin <= |str|
      invariant begin <= |str|
      invariant Behind(result, str, separator, begin) == Split(str, separator)
      decreases |str| - begin
    {
      var end := Find(str, separator, begin);
      var item := SubStr(str, begin, end);
      PiecesFrom(str, separator, begin, result);
      if item != [] {
        result := EmplaceBack(result, item);
      }
      match end {
        case None => break;
        case Some(e) =>
          assert |separator| > 0;
          begin := e + |separator|;
      }
    }
  }

  /** The pieces found so far, and those still to come. */
  ghost function Behind(done: seq<Bytes>, s: Bytes, sep: Bytes, begin: nat): seq<Bytes>
    requires sep != [] && begin <= |s|
  {
    done + Pieces(s, sep, begin)
  }

  lemma PiecesFrom(s: Bytes, sep: Bytes, begin: nat, done: seq<Bytes>)
    requires sep != [] && begin <= |s|
    ensures var item := SubStr(s, begin, Find(s, sep, begin));
            var more := if item == [] then done else EmplaceBack(done, item);
            Behind(done, s, sep, begin) ==
            match Find(s, sep, begin) case None => more case Some(end) => Behind(more, s, sep, end + |sep|)
  {
  }

  /** No piece is empty or contains the separator. */
  lemma {:induction false} PiecesAreFree(s: Bytes, sep: Bytes, begin: nat, piece: Bytes)
    requires sep != [] && begin <= |s| && piece in Pieces(s, sep, begin)
    ensures piece != [] && Free(piece, sep)
    decreases |s| - begin
  {
    FindMeans(s, sep, begin);
    match Find(s, sep, begin) {
      case None =>
        PieceIsFree(s, sep, begin, |s|);
        assert s[begin..|s|] == s[begin..];
      case Some(end) =>
        PieceIsFree(s, sep, begin, end);
        if piece !in NonEmpty(s[begin..end]) {
          PiecesAreFree(s, sep, end + |sep|, piece);
        }
    }
  }

  lemma PieceIsFree(s: Bytes, sep: Bytes, begin: nat, end: nat)
    requires begin <= end <= |s| && Absent(s, sep, begin, end)
    ensures Free(s[begin..end], sep)
  {
    var piece := s[begin..end];
    forall i | 0 <= i < |piece|
      ensures !OccursAt(piece, sep, i)
    {
      if i + |sep| <= |piece| {
        assert s == s[..begin] + (piece + s[end..]);
        OccursShift(s[..begin], piece + s[end..], sep, i);
        OccursInFront(piece, s[end..], sep, i);
        assert !OccursAt(s, sep, begin + i);
      }
    }
  }

  lemma {:induction false} PiecesShift(p: Bytes, s: Bytes, sep: Bytes, begin: nat)
    requires sep != [] && begin <= |s|
    ensures Pieces(p + s, sep, |p| + begin) == Pieces(s, sep, begin)
    decreases |s| - begin
  {
    FindShift(p, s, sep, begin);
    hide OccursAt;
    match Find(s, sep, begin) {
      case None => assert (p + s)[|p| + begin..] == s[begin..];
      case Some(end) =>
        PiecesShift(p, s, sep, end + |sep|);
        assert (p + s)[|p| + begin..|p| + end] == s[begin..end];
    }
  }

  lemma SplitFirst(piece: Bytes, sep: Bytes, rest: Bytes)
    requires Separator(sep) && piece != [] && Free(piece, sep)
    ensures Split(piece + sep + rest, sep) == [piece] + Split(rest, sep)
  {
    FirstSeparator(piece, sep, rest);
    var s := piece + sep + rest;
    assert s[0..|piece|] == piece;
    PiecesShift(piece + sep, rest, sep, 0);
  }

  lemma SplitOne(piece: Bytes, sep: Bytes)
    requires sep != [] && piece != [] && Free(piece, sep)
    ensures Split(piece, sep) == [piece]
  {
    FindNone(piece, sep, 0);
    assert piece[0..] == piece;
  }

  function Join(pieces: seq<Bytes>, sep: Bytes): Bytes {
    if pieces == [] then []
    else if |pieces| == 1 then pieces[0]
    else pieces[0] + sep + Join(pieces[1..], sep)
  }

  ghost predicate AllFree(pieces: seq<Bytes>, sep: Bytes) {
    forall i :: 0 <= i < |pieces| ==> pieces[i] != [] && Free(pieces[i], sep)
  }

  /** Splitting undoes joining. */
  lemma {:induction false} SplitJoin(pieces: seq<Bytes>, sep: Bytes)
    requires Separator(sep) && AllFree(pieces, sep)
    ensures Split(Join(pieces, sep), sep) == pieces
  {
    if pieces == [] {
      FindNone([], sep, 0);
    } else if |pieces| == 1 {
      SplitOne(pieces[0], sep);
    } else {
      SplitJoin(pieces[1..], sep);
      SplitFirst(pieces[0], sep, Join(pieces[1..], sep));
    }
  }

  // ----- splitting into a map -----

  /** Assignments one after the other; a later one overwrites. */
  function Assigned(m: map<Bytes, Bytes>, pairs: seq<(Bytes, Bytes)>): map<Bytes, Bytes> {
    if pairs == [] then m
    else Assigned(m, pairs[..|pairs| - 1])[pairs[|pairs| - 1].0 := pairs[|pairs| - 1].1]
  }

  /** The pair an item stands for; items without a key are skipped. */
  function PairOf(item: Bytes, joiner: Bytes): seq<(Bytes, Bytes)> {
    match Find(item, joiner, 0)
    case None => []
    case Some(k) => if k == 0 then [] else [(item[..k], item[k + |joiner|..])]
  }

  /** An item without a joiner, or with nothing in front of it, stands for no pair; any other for what
      stands around its first joiner. */
  lemma PairExactly(item: Bytes, joiner: Bytes)
    requires Separator(joiner)
    ensures Free(item, joiner) ==> PairOf(item, joiner) == []
    ensures forall key, value :: item == key + joiner + value && Free(key, joiner) ==>
              PairOf(item, joiner) == if key == [] then [] else [(key, value)]
  {
    if Free(item, joiner) {
      FindNone(item, joiner, 0);
    }
    forall key, value | item == key + joiner + value && Free(key, joiner)
      ensures PairOf(item, joiner) == if key == [] then [] else [(key, value)]
    {
      FirstSeparator(key, joiner, value);
      assert item[..|key|] == key && item[|key| + |joiner|..] == value;
    }
  }

  /** The last pair with a key decides; other keys keep what they had. */
  lemma {:induction false} AssignedLast(m: map<Bytes, Bytes>, pairs: seq<(Bytes, Bytes)>, key: Bytes, k: nat)
    ensures (forall i :: 0 <= i < |pairs| ==> pairs[i].0 != key) ==>
              (key in Assigned(m, pairs) <==> key in m) && (key in m ==> Assigned(m, pairs)[key] == m[key])
    ensures k < |pairs| && pairs[k].0 == key && (forall i :: k < i < |pairs| ==> pairs[i].0 != key) ==>
              key in Assigned(m, pairs) && Assigned(m, pairs)[key] == pairs[k].1
  {
    if pairs != [] {
      var init := pairs[..|pairs| - 1];
      AssignedLast(m, init, key, k);
    }
  }

  function Pairs(items: seq<Bytes>, joiner: Bytes): seq<(Bytes, Bytes)> {
    if items == [] then [] else Pairs(items[..|items| - 1], joiner) + PairOf(items[|items| - 1], joiner)
  }

  function SplitMap(m: map<Bytes, Bytes>, s: Bytes, sep: Bytes, joiner: Bytes): map<Bytes, Bytes> {
    if joiner == [] then m else Assigned(m, Pairs(Split(s, sep), joiner))
  }

  lemma AssignedMore(m: map<Bytes, Bytes>, pairs: seq<(Bytes, Bytes)>, p: (Bytes, Bytes))
    ensures Assigned(m, pairs + [p]) == Assigned(m, pairs)[p.0 := p.1]
  {
    assert (pairs + [p])[..|pairs|] == pairs;
  }

  /** One item more: assigned, or skipped when it has no key. */
  lemma AssignedItem(m: map<Bytes, Bytes>, items: seq<Bytes>, i: nat, joiner: Bytes)
    requires i < |items| && joiner != []
    ensures var before := Assigned(m, Pairs(items[..i], joiner));
            Assigned(m, Pairs(items[..i + 1], joiner)) ==
            match Find(items[i], joiner, 0)
            case None => before
            case Some(k) => if k == 0 then before else before[items[i][..k] := items[i][k + |joiner|..]]
  {
    hide Find, OccursAt;
    var before := Pairs(items[..i], joiner);
    assert items[..i + 1][..i] == items[..i];
    assert before + [] == before;
    match Find(items[i], joiner, 0)
    case None =>
    case Some(k) =>
      if k != 0 {
        AssignedMore(m, before, (items[i][..k], items[i][k + |joiner|..]));
      }
  }

  method SplitStrToMap(str: Bytes, separator: Bytes, joiner: Bytes, given: map<Bytes, Bytes>)
    returns (result: map<Bytes, Bytes>)
    ensures result == SplitMap(given, str, separator, joiner)
  {
    result := given;
    if str == [] || separator == [] || joiner == [] {
      if joiner != [] {
        EmptySplit(str, separator);
      }
      return;
    }
    var items := SplitStrToVector(str, separator);
    for i := 0 to |items|
      invariant result == Assigned(given, Pairs(items[..i], joiner))
    {
      var item := items[i];
      AssignedItem(given, items, i, joiner);
      var position := Find(item, joiner, 0);
      if position.None? || position.value == 0 {
        continue;
      }
      result := result[item[..position.value] := item[position.value + |joiner|..]];
    }
    assert items[..|items|] == items;
  }

  lemma EmptySplit(s: Bytes, sep: Bytes)
    requires s == [] || sep == []
    ensures Split(s, sep) == []
  {
    if sep != [] {
      FindNone([], sep, 0);
    }
  }

  function Item(pair: (Bytes, Bytes), joiner: Bytes): Bytes {
    pair.0 + joiner + pair.1
  }

  function Items(pairs: seq<(Bytes, Bytes)>, joiner: Bytes): (items: seq<Bytes>)
    ensures |items| == |pairs|
  {
    if pairs == [] then [] else Items(pairs[..|pairs| - 1], joiner) + [Item(pairs[|pairs| - 1], joiner)]
  }

  lemma PairOfItem(pair: (Bytes, Bytes), joiner: Bytes)
    requires Separator(joiner) && pair.0 != [] && Free(pair.0, joiner)
    ensures PairOf(Item(pair, joiner), joiner) == [pair]
  {
    FirstSeparator(pair.0, joiner, pair.1);
    var item := Item(pair, joiner);
    assert item[..|pair.0|] == pair.0 && item[|pair.0| + |joiner|..] == pair.1;
  }

  lemma {:induction false} PairsOfItems(pairs: seq<(Bytes, Bytes)>, joiner: Bytes)
    requires Separator(joiner)
    requires forall i :: 0 <= i < |pairs| ==> pairs[i].0 != [] && Free(pairs[i].0, joiner)
    ensures Pairs(Items(pairs, joiner), joiner) == pairs
  {
    if pairs != [] {
      var init, last := pairs[..|pairs| - 1], pairs[|pairs| - 1];
      PairsOfItems(init, joiner);
      PairOfItem(last, joiner);
      hide Find, Item, PairOf;
      assert Items(pairs, joiner)[..|init|] == Items(init, joiner);
    }
  }

  /** Printing pairs and splitting the text again gives the same map. */
  lemma MapRoundTrip(pairs: seq<(Bytes, Bytes)>, sep: Bytes, joiner: Bytes)
    requires Separator(sep) && Separator(joiner)
    requires forall i :: 0 <= i < |pairs| ==> pairs[i].0 != [] && Free(pairs[i].0, joiner)
    requires AllFree(Items(pairs, joiner), sep)
    ensures SplitMap(map[], Join(Items(pairs, joiner), sep), sep, joiner) == Assigned(map[], pairs)
  {
    SplitJoin(Items(pairs, joiner), sep);
    PairsOfItems(pairs, joiner);
  }

  // ----- trimming and case -----

  predicate Blank(c: Byte) {
    c == ' ' || c == '\t'
  }

  function TrimLeft(s: Bytes): Bytes {
    if s != [] && Blank(s[0]) then TrimLeft(s[1..]) else s
  }

  function TrimRight(s: Bytes): Bytes {
    if s != [] && Blank(s[|s| - 1]) then TrimRight(s[..|s| - 1]) else s
  }

  /** `Trim`: the part between the first and the last byte that is not blank. */
  function Trim(s: Bytes): Bytes {
    TrimRight(TrimLeft(s))
  }

  predicate Trimmed(s: Bytes) {
    s != [] ==> !Blank(s[0]) && !Blank(s[|s| - 1])
  }

  predicate AllBlank(s: Bytes) {
    forall i :: 0 <= i < |s| ==> Blank(s[i])
  }

  lemma {:induction false} TrimsLeft(pad: Bytes, s: Bytes)
    requires AllBlank(pad)
    ensures TrimLeft(pad + s) == TrimLeft(s)
  {
    if pad == [] {
      assert pad + s == s;
    } else {
      assert (pad + s)[1..] == pad[1..] + s;
      TrimsLeft(pad[1..], s);
    }
  }

  lemma {:induction false} TrimsRight(s: Bytes, pad: Bytes)
    requires AllBlank(pad)
    ensures TrimRight(s + pad) == TrimRight(s)
    decreases |pad|
  {
    if pad == [] {
      assert s + pad == s;
    } else {
      assert (s + pad)[..|s + pad| - 1] == s + pad[..|pad| - 1];
      TrimsRight(s, pad[..|pad| - 1]);
    }
  }

  /** Blanks on either side go, and nothing else does. */
  lemma TrimPads(left: Bytes, s: Bytes, right: Bytes)
    requires AllBlank(left) && AllBlank(right) && Trimmed(s)
    ensures Trim(left + s + right) == s
  {
    assert left + s + right == left + (s + right);
    TrimsLeft(left, s + right);
    if s == [] {
      TrimsLeft(right, []);
      assert s + right == right + [] == right;
    } else {
      TrimsRight(s, right);
    }
  }

  /** Nothing is left exactly of blanks. */
  lemma TrimsAll(s: Bytes)
    ensures Trim(s) == [] <==> AllBlank(s)
  {
    if AllBlank(s) {
      TrimPads(s, [], []);
      assert s + [] + [] == s;
    } else {
      LeftStops(s);
      RightStops(TrimLeft(s));
    }
  }

  lemma {:induction false} LeftStops(s: Bytes)
    requires !AllBlank(s)
    ensures TrimLeft(s) != [] && !Blank(TrimLeft(s)[0])
  {
    if Blank(s[0]) {
      assert forall i :: 0 <= i < |s[1..]| ==> s[1..][i] == s[i + 1];
      LeftStops(s[1..]);
    }
  }

  lemma {:induction false} RightStops(s: Bytes)
    requires s != [] && !Blank(s[0])
    ensures TrimRight(s) != []
  {
    if Blank(s[|s| - 1]) {
      RightStops(s[..|s| - 1]);
    }
  }

  lemma TrimPadded(s: Bytes)
    requires Trimmed(s)
    ensures Trim(s) == s && Trim([' '] + s) == s
  {
    assert ([' '] + s)[1..] == s;
  }

  function LowerByte(c: Byte): Byte {
    if 'A' <= c <= 'Z' then (c as int + 32) as char else c
  }

  function UpperByte(c: Byte): Byte {
    if 'a' <= c <= 'z' then (c as int - 32) as char else c
  }

  function Lower(s: Bytes): (r: Bytes)
    ensures |r| == |s| && forall i :: 0 <= i < |s| ==> r[i] == LowerByte(s[i])
  {
    if s == [] then [] else Lower(s[..|s| - 1]) + [LowerByte(s[|s| - 1])]
  }

  function Upper(s: Bytes): (r: Bytes)
    ensures |r| == |s| && forall i :: 0 <= i < |s| ==> r[i] == UpperByte(s[i])
  {
    if s == [] then [] else Upper(s[..|s| - 1]) + [UpperByte(s[|s| - 1])]
  }

  const CAPITALS: Bytes := "ABCDEFGHIJKLMNOPQRSTUVWXYZ"
  const SMALL_LETTERS: Bytes := "abcdefghijklmnopqrstuvwxyz"

  /** The two cases of the alphabet; every other byte stays as it is. */
  lemma CaseTables()
    ensures Lower(CAPITALS) == SMALL_LETTERS && Upper(SMALL_LETTERS) == CAPITALS
    ensures forall c: Byte :: c !in CAPITALS ==> LowerByte(c) == c
    ensures forall c: Byte :: c !in SMALL_LETTERS ==> UpperByte(c) == c
  {
    hide Lower, Upper;
    assert forall i :: 0 <= i < 26 ==>
             CAPITALS[i] as int == 'A' as int + i && SMALL_LETTERS[i] as int == 'a' as int + i;
    forall c: Byte
      ensures 'A' <= c <= 'Z' ==> c in CAPITALS
      ensures 'a' <= c <= 'z' ==> c in SMALL_LETTERS
    {
      if 'A' <= c <= 'Z' {
        assert CAPITALS[c as int - 'A' as int] == c;
      }
      if 'a' <= c <= 'z' {
        assert SMALL_LETTERS[c as int - 'a' as int] == c;
      }
    }
  }

  /** Two texts that differ in case only look the same in either case. */
  lemma SameInBothCases(s: Bytes, t: Bytes)
    ensures Lower(s) == Lower(t) <==> Upper(s) == Upper(t)
  {
    hide Lower, Upper;
    if |s| == |t| {
      assert forall i :: 0 <= i < |s| ==> (LowerByte(s[i]) == LowerByte(t[i]) <==> UpperByte(s[i]) == UpperByte(t[i]));
    }
  }
}
