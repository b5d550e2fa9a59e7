/** The log queue and the log files together: what the producers pushed is what a reader finds. */
module LogFiles {
  import opened LogRotation
  import AsyncLogger

  predicate DatesRise(lines: seq<Line>) {
    forall i, j :: 0 <= i < j < |lines| ==> lines[i].date <= lines[j].date
  }

  /** The writer disposes of empty messages without writing them. */
  lemma {:induction false} WrittenIsSolid(run: seq<AsyncLogger.Step>)
    requires AsyncLogger.Runs(run)
    ensures [] !in AsyncLogger.After(run).written
  {
    hide AsyncLogger.Next, AsyncLogger.Enabled;
    if run != [] {
      WrittenIsSolid(run[..|run| - 1]);
      StepIsSolid(AsyncLogger.After(run[..|run| - 1]), run[|run| - 1]);
    }
  }

  lemma StepIsSolid(st: AsyncLogger.State, step: AsyncLogger.Step)
    requires AsyncLogger.Enabled(st, step) && [] !in st.written
    ensures [] !in AsyncLogger.Next(st, step).written
  {
    match step
    case Push(_) => case Stop => case Notify => case Check => case Write => case Finish => case Leave =>
    case Flush(_) => case Test(_) => case Wake(_) => case WakeWriter =>
  }

  lemma LinesRise(run: seq<AsyncLogger.Step>, lines: seq<Line>)
    requires AsyncLogger.Runs(run) && Texts(lines) == AsyncLogger.After(run).written && DatesRise(lines)
    ensures Rising(lines)
  {
    WrittenIsSolid(run);
    assert forall i :: 0 <= i < |lines| ==> lines[i].msg == Texts(lines)[i];
  }

  /** End to end: in every interleaving of the logger, with the dates on which its messages are written
      not going back, the files of a directory that was empty, read in the order of their names, hold
      the accepted messages in push order, but for those of the batch in hand and of the queue; none is
      missing when a flush returns or the writer has ended. */
  lemma FilesHoldThePushes(run: seq<AsyncLogger.Step>, max: nat, lines: seq<Line>, names: seq<Name>)
    requires AsyncLogger.Runs(run) && Texts(lines) == AsyncLogger.After(run).written && DatesRise(lines)
    requires Listing(names, Run(Start(map[]), max, lines).dir)
    ensures var st, pushed := AsyncLogger.After(run), AsyncLogger.Messages(AsyncLogger.Accepted(run));
      var found := ReadAll(Run(Start(map[]), max, lines).dir, names);
      && pushed == found + AsyncLogger.Pending(st)
      && (st.writer.Gone? ==> found == pushed)
      && (forall f :: f in st.ready && f !in AsyncLogger.Next(st, AsyncLogger.Test(f)).sleeping ==> found == pushed)
  {
    hide Run, ReadAll, Listing, Rising, DatesRise, Logged, AsyncLogger.After, AsyncLogger.Next, AsyncLogger.Pending,
      AsyncLogger.Messages, AsyncLogger.Accepted, AsyncLogger.Runs;
    LinesRise(run, lines);
    FilesReadBack(max, lines, names);
    AsyncLogger.Conservation(run);
    var st := AsyncLogger.After(run);
    if st.writer.Gone? {
      AsyncLogger.ExitIsComplete(run);
    }
    forall f | f in st.ready && f !in AsyncLogger.Next(st, AsyncLogger.Test(f)).sleeping
      ensures AsyncLogger.Messages(AsyncLogger.Accepted(run)) == st.written
    {
      AsyncLogger.FlushIsComplete(run, f);
    }
  }
}
