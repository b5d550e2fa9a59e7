/** The log files of one `AsyncLogger`: which file a message goes to, and how large files
    become. Opening and writing are taken to succeed; the directory is a map. */
module LogRotation {
  import opened Bytes

  /** A file by date and number; the rest of the name is fixed. */
  datatype Name = Name(date: nat, no: nat)

  type Directory = map<Name, seq<Bytes>>

  function Size(file: seq<Bytes>): nat {
    if file == [] then 0 else Size(file[..|file| - 1]) + |file[|file| - 1]|
  }

  function Content(dir: Directory, n: Name): seq<Bytes> {
    if n in dir then dir[n] else []
  }

  function Ahead(dir: Directory, date: nat, no: nat): set<Name> {
    set n | n in dir && n.date == date && n.no >= no
  }

  /** The first number from `no` on whose file is missing or still below the limit. */
  function Room(dir: Directory, max: nat, date: nat, no: nat): (k: nat)
    ensures k >= no
    decreases Ahead(dir, date, no)
  {
    var here := Name(date, no);
    if max == 0 || here !in dir || Size(dir[here]) < max then no
    else
      assert here in Ahead(dir, date, no) && Ahead(dir, date, no + 1) <= Ahead(dir, date, no);
      Room(dir, max, date, no + 1)
  }

  /** It is the first: every file before it is full, and it is not. */
  lemma {:induction false} RoomIsFirst(dir: Directory, max: nat, date: nat, no: nat)
    requires max > 0
    ensures var k := Room(dir, max, date, no);
      && (Name(date, k) in dir ==> Size(dir[Name(date, k)]) < max)
      && forall i :: no <= i < k ==> Name(date, i) in dir && Size(dir[Name(date, i)]) >= max
    decreases Ahead(dir, date, no)
  {
    var here := Name(date, no);
    if here in dir && Size(dir[here]) >= max {
      assert here in Ahead(dir, date, no) && Ahead(dir, date, no + 1) <= Ahead(dir, date, no);
      RoomIsFirst(dir, max, date, no + 1);
    }
  }

  /** `m_date` (none at first), `m_file_no`, whether `m_file_handle` is set, `m_file_size`. */
  datatype LogState = LogState(date: Option<nat>, no: nat, isOpen: bool, size: nat, dir: Directory)

  function Start(dir: Directory): LogState {
    LogState(None, 0, false, 0, dir)
  }

  /** `openLogFile`. */
  function Opened(st: LogState, max: nat, date: nat): (r: LogState)
    ensures r.date == Some(date) && r.isOpen
  {
    if st.isOpen && st.date == Some(date) then st
    else
      var k := Room(st.dir, max, date, if st.date == Some(date) then st.no else 0);
      var n := Name(date, k);
      LogState(Some(date), k, true, Size(Content(st.dir, n)), st.dir[n := Content(st.dir, n)])
  }

  /** `rotateIfNeeded`, with the file of `st` open. */
  function Rotated(st: LogState, max: nat, incoming: nat): (r: LogState)
    requires st.isOpen && st.date.Some?
    ensures r.isOpen && r.date == st.date
  {
    if max == 0 || st.size == 0 || st.size + incoming <= max then st
    else Opened(st.(isOpen := false, no := st.no + 1), max, st.date.value)
  }

  /** Writing one message that is not empty. */
  function Logged(st: LogState, max: nat, date: nat, msg: Bytes): LogState {
    var r := Rotated(Opened(st, max, date), max, |msg|);
    var n := Name(date, r.no);
    r.(size := r.size + |msg|, dir := r.dir[n := Content(r.dir, n) + [msg]])
  }

  class LogWriter {
    const maxSize: nat
    var date: Option<nat>
    var fileNo: nat
    var handle: Option<Name>
    var fileSize: nat
    var dir: Directory

    ghost predicate Valid()
      reads this
    {
      handle.Some? ==> date == Some(handle.value.date) && fileNo == handle.value.no && handle.value in dir
    }

    ghost function Abs(): LogState
      reads this
    {
      LogState(date, fileNo, handle.Some?, fileSize, dir)
    }

    constructor (maxSize: nat, dir: Directory)
      ensures Valid() && Abs() == Start(dir) && this.maxSize == maxSize
    {
      this.maxSize, this.dir := maxSize, dir;
      date, fileNo, handle, fileSize := None, 0, None, 0;
    }

    method OpenLogFile(today: nat)
      requires Valid()
      modifies this
      ensures Valid() && handle.Some? && Abs() == Opened(old(Abs()), maxSize, today)
    {
      if Some(today) != date {
        handle := None;
        date := Some(today);
        fileNo := 0;
      }
      if handle.Some? {
        return;
      }
      ghost var k := Room(dir, maxSize, today, fileNo);
      while true
        invariant dir == old(dir) && date == Some(today) && handle.None?
        invariant fileNo <= k == Room(dir, maxSize, today, fileNo)
        decreases k - fileNo
      {
        var name := Name(today, fileNo);
        fileSize := Size(Content(dir, name));
        if maxSize == 0 || fileSize < maxSize {
          dir := dir[name := Content(dir, name)];
          handle := Some(name);
          return;
        }
        fileNo := fileNo + 1;
      }
    }

    method RotateIfNeeded(incoming: nat)
      requires Valid() && handle.Some?
      modifies this
      ensures Valid() && handle.Some? && Abs() == Rotated(old(Abs()), maxSize, incoming)
    {
      if maxSize == 0 || fileSize == 0 || fileSize + incoming <= maxSize {
        return;
      }
      handle := None;
      fileNo := fileNo + 1;
      OpenLogFile(date.value);
    }

    /** The loop body of `execute` for one message. */
    method Write(today: nat, msg: Bytes)
      requires Valid()
      modifies this
      ensures Valid() && Abs() == if msg == [] then old(Abs()) else Logged(old(Abs()), maxSize, today, msg)
    {
      if msg == [] {
        return;
      }
      OpenLogFile(today);
      RotateIfNeeded(|msg|);
      dir := dir[handle.value := dir[handle.value] + [msg]];
      fileSize := fileSize + |msg|;
    }
  }

  // ----- what the files contain -----

  /** The recorded size is the open file's. */
  predicate Consistent(st: LogState) {
    st.isOpen ==> st.date.Some? && Name(st.date.value, st.no) in st.dir
                  && st.size == Size(st.dir[Name(st.date.value, st.no)])
  }

  /** A message is appended to one file, and no other file changes, whatever was in the
      directory and whichever dates come. */
  lemma LoggedAppends(st: LogState, max: nat, date: nat, msg: Bytes, n: Name)
    requires Consistent(st)
    ensures var r := Logged(st, max, date, msg);
            && Consistent(r) && r.isOpen && r.date == Some(date)
            && Content(r.dir, n) == Content(st.dir, n) + if n == Name(date, r.no) then [msg] else []
  {
    var r := Rotated(Opened(st, max, date), max, |msg|);
    var file := Content(r.dir, Name(date, r.no)) + [msg];
    assert file[..|file| - 1] == Content(r.dir, Name(date, r.no));
  }

  // ----- the size bound -----

  predicate Bounded(dir: Directory, max: nat) {
    forall n :: n in dir ==> Size(dir[n]) <= max || |dir[n]| == 1
  }

  /** No file lies ahead of the one that is open and was written to. */
  predicate AtEnd(st: LogState) {
    if st.date.Some? then
      && st.isOpen && st.size > 0
      && forall n :: n in st.dir ==> n.date < st.date.value || (n.date == st.date.value && n.no <= st.no)
    else st.dir == map[]
  }

  /** Dates that do not go back keep the files' end where the writer is, whatever the limit. */
  lemma LoggedAtEnd(st: LogState, max: nat, date: nat, msg: Bytes)
    requires Consistent(st) && AtEnd(st) && (st.date.Some? ==> st.date.value <= date) && msg != []
    ensures var r := Logged(st, max, date, msg);
            && Consistent(r) && AtEnd(r) && r.date == Some(date)
            && r.dir.Keys == st.dir.Keys + {Name(date, r.no)}
            && (st.date == Some(date) ==> r.no >= st.no)
  {
    var r := Logged(st, max, date, msg);
    LoggedAppends(st, max, date, msg, Name(date, r.no));
    var o := Opened(st, max, date);
    assert o.size == 0 || o == st;
    assert st.date == Some(date) ==> Name(date, st.no + 1) !in st.dir;
    assert st.date != Some(date) ==> Name(date, 0) !in st.dir;
  }

  ghost predicate Fine(st: LogState, max: nat) {
    Consistent(st) && AtEnd(st) && Bounded(st.dir, max)
  }

  /** At the end of the files every file stays within the limit, but for single large messages. */
  lemma LoggedFine(st: LogState, max: nat, date: nat, msg: Bytes)
    requires max > 0 && Fine(st, max) && (st.date.Some? ==> st.date.value <= date) && msg != []
    ensures Fine(Logged(st, max, date, msg), max)
  {
    var r := Logged(st, max, date, msg);
    var n := Name(date, r.no);
    LoggedAppends(st, max, date, msg, n);
    var o, file := Opened(st, max, date), Content(st.dir, n) + [msg];
    assert file[..|file| - 1] == Content(st.dir, n);
    assert r.dir[n] == file;
    assert o.size == 0 || o == st;
    assert st.date == Some(date) ==> Name(date, st.no + 1) !in st.dir;
    assert st.date != Some(date) ==> Name(date, 0) !in st.dir;
    assert file == [msg] || (r.no == st.no && st.size + |msg| <= max);
    forall m | m in r.dir
      ensures Size(r.dir[m]) <= max || |r.dir[m]| == 1
    {
      LoggedAppends(st, max, date, msg, m);
    }
  }

  // ----- runs -----

  /** A message and the date on which it is written. */
  datatype Line = Line(date: nat, msg: Bytes)

  function Run(st: LogState, max: nat, lines: seq<Line>): LogState {
    if lines == [] then st
    else Logged(Run(st, max, lines[..|lines| - 1]), max, lines[|lines| - 1].date, lines[|lines| - 1].msg)
  }

  /** The files the lines go to. */
  function Targets(st: LogState, max: nat, lines: seq<Line>): (names: seq<Name>)
    ensures |names| == |lines|
  {
    if lines == [] then []
    else Targets(st, max, lines[..|lines| - 1]) + [Name(lines[|lines| - 1].date, Run(st, max, lines).no)]
  }

  /** The messages that went to `n`, in order. */
  function Sent(names: seq<Name>, lines: seq<Line>, n: Name): seq<Bytes>
    requires |names| == |lines|
  {
    if lines == [] then []
    else
      var last := |lines| - 1;
      Sent(names[..last], lines[..last], n) + if names[last] == n then [lines[last].msg] else []
  }

  /** Nothing is lost, duplicated or reordered within a file: every file is what it was, with
      the messages sent to it behind. */
  lemma {:induction false} FilesHoldWhatWasSent(st: LogState, max: nat, lines: seq<Line>, n: Name)
    requires Consistent(st)
    ensures Consistent(Run(st, max, lines))
    ensures Content(Run(st, max, lines).dir, n) == Content(st.dir, n) + Sent(Targets(st, max, lines), lines, n)
  {
    hide Consistent, Logged;
    if lines != [] {
      var init, last := lines[..|lines| - 1], lines[|lines| - 1];
      FilesHoldWhatWasSent(st, max, init, n);
      LoggedAppends(Run(st, max, init), max, last.date, last.msg, n);
      assert Targets(st, max, lines)[..|init|] == Targets(st, max, init);
    }
  }

  predicate Rising(lines: seq<Line>) {
    && (forall i, j :: 0 <= i < j < |lines| ==> lines[i].date <= lines[j].date)
    && forall i :: 0 <= i < |lines| ==> lines[i].msg != []
  }

  predicate Before(a: Name, b: Name) {
    a.date < b.date || (a.date == b.date && a.no <= b.no)
  }

  /** From an empty directory, with dates that never go back, every file is within the limit
      or holds a single message. */
  lemma {:induction false} FilesBounded(max: nat, lines: seq<Line>)
    requires max > 0 && Rising(lines)
    ensures Fine(Run(Start(map[]), max, lines), max)
    ensures lines != [] ==> Run(Start(map[]), max, lines).date == Some(lines[|lines| - 1].date)
  {
    if lines != [] {
      var init, last := lines[..|lines| - 1], lines[|lines| - 1];
      FilesBounded(max, init);
      LoggedFine(Run(Start(map[]), max, init), max, last.date, last.msg);
    }
  }

  lemma {:induction false} EndKept(max: nat, lines: seq<Line>)
    requires Rising(lines)
    ensures var r := Run(Start(map[]), max, lines);
            && Consistent(r) && AtEnd(r)
            && if lines == [] then r == Start(map[]) else r.date == Some(lines[|lines| - 1].date)
  {
    hide Logged, AtEnd;
    if lines != [] {
      var init, last := lines[..|lines| - 1], lines[|lines| - 1];
      EndKept(max, init);
      LoggedAtEnd(Run(Start(map[]), max, init), max, last.date, last.msg);
    } else {
      assert AtEnd(Start(map[])) by {
        EmptyAtEnd();
      }
    }
  }

  lemma EmptyAtEnd()
    ensures AtEnd(Start(map[]))
  {
  }

  /** From an empty directory, with dates that never go back, later messages go to later files. */
  lemma {:induction false} FilesInOrder(max: nat, lines: seq<Line>, i: nat, j: nat)
    requires Rising(lines) && i <= j < |lines|
    ensures Before(Targets(Start(map[]), max, lines)[i], Targets(Start(map[]), max, lines)[j])
  {
    hide Logged, AtEnd, Consistent;
    var init, last := lines[..|lines| - 1], lines[|lines| - 1];
    if j < |init| {
      FilesInOrder(max, init, i, j);
    } else if i < j {
      FilesInOrder(max, init, i, j - 1);
      EndKept(max, init);
      LoggedAtEnd(Run(Start(map[]), max, init), max, last.date, last.msg);
    }
  }

  /** Without a limit there is one file per date, from any directory and with any dates. */
  lemma {:induction false} NoLimitOneFile(dir: Directory, lines: seq<Line>, i: nat)
    requires i < |lines|
    ensures Targets(Start(dir), 0, lines)[i] == Name(lines[i].date, 0)
    ensures Run(Start(dir), 0, lines).no == 0
  {
    var init := lines[..|lines| - 1];
    if i < |init| {
      NoLimitOneFile(dir, init, i);
    } else if init != [] {
      NoLimitOneFile(dir, init, 0);
    }
  }

  // ----- reading the files back -----

  function Texts(lines: seq<Line>): (ms: seq<Bytes>)
    ensures |ms| == |lines| && forall i :: 0 <= i < |lines| ==> ms[i] == lines[i].msg
  {
    if lines == [] then [] else Texts(lines[..|lines| - 1]) + [lines[|lines| - 1].msg]
  }

  /** All names in the directory, in their order. */
  ghost predicate Listing(names: seq<Name>, dir: Directory) {
    && (forall i, j :: 0 <= i < j < |names| ==> names[i] != names[j] && Before(names[i], names[j]))
    && forall n :: n in names <==> n in dir
  }

  function ReadAll(dir: Directory, names: seq<Name>): seq<Bytes> {
    if names == [] then [] else ReadAll(dir, names[..|names| - 1]) + Content(dir, names[|names| - 1])
  }

  lemma {:induction false} ReadSame(a: Directory, b: Directory, names: seq<Name>)
    requires forall n :: n in names ==> Content(a, n) == Content(b, n)
    ensures ReadAll(a, names) == ReadAll(b, names)
  {
    if names != [] {
      ReadSame(a, b, names[..|names| - 1]);
    }
  }

  /** The name behind all others is listed last; without it the listing is that of the other names. */
  lemma LastListed(names: seq<Name>, dir: Directory, n: Name)
    requires Listing(names, dir) && n in dir && forall m :: m in dir ==> Before(m, n)
    ensures names != [] && names[|names| - 1] == n && Listing(names[..|names| - 1], dir - {n})
  {
    assert n in names;
    var k :| 0 <= k < |names| && names[k] == n;
    var last := names[|names| - 1];
    assert last in names;
    assert k == |names| - 1;
    var init := names[..k];
    assert names == init + [n];
  }

  lemma ListingMore(names: seq<Name>, dir: Directory, n: Name, more: Directory)
    requires Listing(names, dir) && more.Keys == dir.Keys + {n} && forall m :: m in dir ==> Before(m, n)
    ensures n in dir ==> Listing(names, more)
    ensures n !in dir ==> Listing(names + [n], more)
  {
    assert forall m :: m in more <==> m in dir || m == n;
    assert forall m :: m in names + [n] <==> m in names || m == n;
    assert forall i :: 0 <= i < |names| ==> names[i] in names;
  }

  /** The names the run has made, in order. */
  lemma {:induction false} HasListing(max: nat, lines: seq<Line>) returns (names: seq<Name>)
    requires Rising(lines)
    ensures Listing(names, Run(Start(map[]), max, lines).dir)
  {
    hide Logged, Listing;
    if lines == [] {
      names := [];
      NothingListed();
    } else {
      var init, last := lines[..|lines| - 1], lines[|lines| - 1];
      var st := Run(Start(map[]), max, init);
      names := HasListing(max, init);
      EndKept(max, init);
      LoggedAtEnd(st, max, last.date, last.msg);
      var r := Logged(st, max, last.date, last.msg);
      var n := Name(last.date, r.no);
      ListingMore(names, st.dir, n, r.dir);
      if n !in st.dir {
        names := names + [n];
      }
    }
  }

  lemma NothingListed()
    ensures Listing([], Start(map[]).dir)
  {
  }

  /** What was listed before the last message: all names, or all but that of its new file. */
  function Earlier(names: seq<Name>, n: Name, dir: Directory): seq<Name>
    requires names != []
  {
    if n in dir then names else names[..|names| - 1]
  }

  lemma EarlierListed(names: seq<Name>, dir: Directory, n: Name, more: Directory)
    requires Listing(names, more) && more.Keys == dir.Keys + {n} && forall m :: m in more ==> Before(m, n)
    ensures names != [] && names[|names| - 1] == n && Listing(Earlier(names, n, dir), dir) && n !in names[..|names| - 1]
  {
    LastListed(names, more, n);
    assert forall m :: m in more <==> m in dir || m == n;
    assert forall m :: m in more - {n} <==> m in more && m != n;
  }

  /** One message more, read back at the end. */
  lemma LineRead(a: Directory, b: Directory, names: seq<Name>, n: Name, msg: Bytes)
    requires names != [] && names[|names| - 1] == n && n !in names[..|names| - 1]
    requires forall m: Name :: Content(b, m) == Content(a, m) + if m == n then [msg] else []
    ensures ReadAll(b, names) == ReadAll(a, Earlier(names, n, a)) + [msg]
  {
    var init := names[..|names| - 1];
    forall m | m in init
      ensures Content(b, m) == Content(a, m)
    {
      assert Content(a, m) + [] == Content(a, m);
    }
    ReadSame(b, a, init);
    assert ReadAll(a, init) + (Content(a, n) + [msg]) == (ReadAll(a, init) + Content(a, n)) + [msg];
    assert n !in a ==> ReadAll(a, init) + [] == ReadAll(a, init);
  }

  /** Reading the files in the order of their names gives the messages back in order, all of them. */
  lemma {:induction false} FilesReadBack(max: nat, lines: seq<Line>, names: seq<Name>)
    requires Rising(lines) && Listing(names, Run(Start(map[]), max, lines).dir)
    ensures ReadAll(Run(Start(map[]), max, lines).dir, names) == Texts(lines)
    decreases |lines|
  {
    hide Logged, Listing, Content, Earlier, Consistent;
    if lines == [] {
      NothingThere(names);
    } else {
      var init, last := lines[..|lines| - 1], lines[|lines| - 1];
      var st := Run(Start(map[]), max, init);
      EndKept(max, init);
      LoggedAtEnd(st, max, last.date, last.msg);
      var r := Logged(st, max, last.date, last.msg);
      var n := Name(last.date, r.no);
      EarlierListed(names, st.dir, n, r.dir);
      FilesReadBack(max, init, Earlier(names, n, st.dir));
      forall m: Name
        ensures Content(r.dir, m) == Content(st.dir, m) + if m == n then [last.msg] else []
      {
        LoggedAppends(st, max, last.date, last.msg, m);
      }
      LineRead(st.dir, r.dir, names, n, last.msg);
    }
  }

  lemma NothingThere(names: seq<Name>)
    requires Listing(names, Start(map[]).dir)
    ensures names == []
  {
    FirstListed(names, Start(map[]).dir);
  }

  lemma FirstListed(names: seq<Name>, dir: Directory)
    requires Listing(names, dir)
    ensures names != [] ==> names[0] in dir
  {
    if names != [] {
      assert names[0] in names;
    }
  }

  // ----- any directory, any dates -----

  /** No message in the files is empty; the writer skips empty ones. */
  predicate Solid(dir: Directory) {
    forall n :: n in dir ==> [] !in dir[n]
  }

  /** The file stays within the limit, or holds one message, when `extra` bytes are added. */
  predicate Takes(dir: Directory, max: nat, n: Name, extra: nat) {
    Size(Content(dir, n)) == 0 || Size(Content(dir, n)) + extra <= max
  }

  /** The file that is open, or the first one with room, takes the message; or the next one with
      room does, which is the one the writer goes on to without looking at its size again. */
  predicate Spared(st: LogState, max: nat, date: nat, msg: Bytes) {
    var first := if st.date != Some(date) then Room(st.dir, max, date, 0)
                 else if st.isOpen then st.no else Room(st.dir, max, date, st.no);
    || Takes(st.dir, max, Name(date, first), |msg|)
    || Takes(st.dir, max, Name(date, Room(st.dir, max, date, first + 1)), |msg|)
  }

  lemma {:induction false} SolidSize(file: seq<Bytes>)
    requires [] !in file
    ensures Size(file) == 0 <==> file == []
  {
  }

  /** Where a message goes, in terms of the directory. */
  lemma LoggedWhere(st: LogState, max: nat, date: nat, msg: Bytes)
    requires max > 0 && Consistent(st)
    ensures Takes(st.dir, max, Name(date, Logged(st, max, date, msg).no), |msg|) <==> Spared(st, max, date, msg)
  {
    var o := Opened(st, max, date);
    var n := Name(date, o.no);
    assert o.size == Size(Content(st.dir, n));
    if !Takes(st.dir, max, n, |msg|) {
      RoomTouched(st.dir, max, date, o.no + 1, n);
      assert o.dir == st.dir || o.dir == st.dir[n := Content(st.dir, n)];
    }
  }

  /** Opening a file does not change which of the later ones have room. */
  lemma {:induction false} RoomTouched(dir: Directory, max: nat, date: nat, no: nat, n: Name)
    requires n.no < no
    ensures Room(dir[n := Content(dir, n)], max, date, no) == Room(dir, max, date, no)
    decreases Ahead(dir, date, no)
  {
    var here := Name(date, no);
    if max != 0 && here in dir && Size(dir[here]) >= max {
      assert here in Ahead(dir, date, no) && Ahead(dir, date, no + 1) <= Ahead(dir, date, no);
      RoomTouched(dir, max, date, no + 1, n);
    }
  }

  /** Exactly when the bound survives a message, whatever is in the directory. */
  lemma BoundSurvives(st: LogState, max: nat, date: nat, msg: Bytes)
    requires max > 0 && msg != [] && Consistent(st) && Solid(st.dir) && Bounded(st.dir, max)
    ensures Bounded(Logged(st, max, date, msg).dir, max) <==> Spared(st, max, date, msg)
  {
    var r := Logged(st, max, date, msg);
    var n := Name(date, r.no);
    var before, after := Content(st.dir, n), Content(st.dir, n) + [msg];
    LoggedWhere(st, max, date, msg);
    LoggedAppends(st, max, date, msg, n);
    SolidSize(before);
    assert after[..|after| - 1] == before;
    assert n in r.dir && r.dir[n] == after;
    forall m | m in r.dir && m != n
      ensures Size(r.dir[m]) <= max || |r.dir[m]| == 1
    {
      LoggedAppends(st, max, date, msg, m);
    }
  }

  lemma LoggedSolid(st: LogState, max: nat, date: nat, msg: Bytes)
    requires msg != [] && Consistent(st) && Solid(st.dir)
    ensures Solid(Logged(st, max, date, msg).dir)
  {
    var r := Logged(st, max, date, msg);
    forall m | m in r.dir
      ensures [] !in r.dir[m]
    {
      LoggedAppends(st, max, date, msg, m);
    }
  }

  /** A file that is too large stays so. */
  lemma ExcessStays(st: LogState, max: nat, date: nat, msg: Bytes)
    requires Consistent(st) && !Bounded(st.dir, max)
    ensures !Bounded(Logged(st, max, date, msg).dir, max)
  {
    var m :| m in st.dir && Size(st.dir[m]) > max && |st.dir[m]| != 1;
    LoggedAppends(st, max, date, msg, m);
    var r, file := Logged(st, max, date, msg), st.dir[m];
    assert (file + [msg])[..|file|] == file;
    assert Content(r.dir, m) != [] && m in r.dir;
  }

  /** Every line was spared at its turn. */
  predicate AllSpared(st: LogState, max: nat, lines: seq<Line>) {
    lines == [] ||
    (var init, last := lines[..|lines| - 1], lines[|lines| - 1];
     AllSpared(st, max, init) && Spared(Run(st, max, init), max, last.date, last.msg))
  }

  /** Exactly when all files are within the bound after any run, from any directory and with any
      dates, going back or not. */
  lemma {:induction false} BoundExactly(st: LogState, max: nat, lines: seq<Line>)
    requires max > 0 && Consistent(st) && Solid(st.dir) && Bounded(st.dir, max)
    requires forall i :: 0 <= i < |lines| ==> lines[i].msg != []
    ensures Consistent(Run(st, max, lines)) && Solid(Run(st, max, lines).dir)
    ensures Bounded(Run(st, max, lines).dir, max) <==> AllSpared(st, max, lines)
  {
    hide Logged, Spared, Consistent, Bounded, Solid;
    if lines != [] {
      var init, last := lines[..|lines| - 1], lines[|lines| - 1];
      var s := Run(st, max, init);
      BoundExactly(st, max, init);
      LoggedAppends(s, max, last.date, last.msg, Name(0, 0));
      LoggedSolid(s, max, last.date, last.msg);
      if Bounded(s.dir, max) {
        BoundSurvives(s, max, last.date, last.msg);
      } else {
        ExcessStays(s, max, last.date, last.msg);
      }
    }
  }

  /** A restart on one day can spoil the bound: the first file with room is opened, the message
      does not fit, and the next file is filled unseen. */
  lemma RestartOverfills()
    ensures var dir: Directory := map[Name(0, 0) := ["aa"], Name(0, 1) := ["bb"]];
            Bounded(dir, 3) && !Bounded(Logged(Start(dir), 3, 0, "dd").dir, 3)
  {
    var dir: Directory := map[Name(0, 0) := ["aa"], Name(0, 1) := ["bb"]];
    OneMessage("aa");
    OneMessage("bb");
    assert Content(dir, Name(0, 0)) == ["aa"] && Content(dir, Name(0, 1)) == ["bb"];
    hide Size;
    assert Room(dir, 3, 0, 0) == 0 && Room(dir, 3, 0, 1) == 1;
    hide Logged, Room;
    BoundSurvives(Start(dir), 3, 0, "dd");
  }

  lemma OneMessage(m: Bytes)
    ensures Size([m]) == |m|
  {
    assert [m][..0] == [];
  }
}
