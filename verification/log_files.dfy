/** Append-only files of lines: what a crash in the middle of a write leaves in them, and what a loader that stops at
    the first line it cannot parse makes of that. */
module LogFiles {
  import opened Common

  /** A line holds a record, or does not parse. */
  datatype Line<+T> = Whole(record: T) | Torn

  /** The terminated lines, and what stands after the last newline: nothing, a complete record, or a part of one. */
  datatype File<+T> = File(lines: seq<Line<T>>, tail: Option<Line<T>>)
  {
    predicate Terminated() { tail.None? }

    /** The lines as a reader sees them. */
    function AllLines(): seq<Line<T>> { if tail.Some? then lines + [tail.value] else lines }
  }

  /** A record is written at the end of the file, with a newline behind it. Behind an unterminated line it makes one
      line with it, which does not parse. */
  function Appended<T>(file: File<T>, r: T): File<T> {
    File(file.lines + [if file.Terminated() then Whole(r) else Torn], None)
  }

  /** The file a crash can leave in the middle of an append. */
  ghost predicate LeftByCrash<T(!new)>(file: File<T>, r: T, after: File<T>) {
    || after == file || after == Appended(file, r)
    || (after.lines == file.lines && after.tail == Some(Torn))
    || (after.lines == file.lines && after.tail == Some(Whole(r)) && file.Terminated())
  }

  // ---- A loader that gives up at the first line that does not parse ----

  function Parsed<T>(lines: seq<Line<T>>): Option<seq<T>> {
    if lines == [] then Some([])
    else
      var front, last := Parsed(lines[..|lines| - 1]), lines[|lines| - 1];
      if front.Some? && last.Whole? then Some(front.value + [last.record]) else None
  }

  function Loaded<T>(file: File<T>): Option<seq<T>> { Parsed(file.AllLines()) }

  method Parse<T>(file: File<T>) returns (r: Option<seq<T>>)
    ensures r == Loaded(file)
  {
    var lines, records := file.AllLines(), [];
    for i := 0 to |lines|
      invariant Parsed(lines[..i]) == Some(records)
    {
      assert lines[..i + 1][..i] == lines[..i];
      match lines[i] {
        case Whole(record) => records := records + [record];
        case Torn =>
          UnreadableFrom(lines, i + 1);
          return None;
      }
    }
    assert lines[..|lines|] == lines;
    return Some(records);
  }

  lemma {:induction false} ParsedExtends<T>(lines: seq<Line<T>>, line: Line<T>)
    ensures Parsed(lines + [line]) ==
              if Parsed(lines).Some? && line.Whole? then Some(Parsed(lines).value + [line.record]) else None
  {
    assert (lines + [line])[..|lines|] == lines;
  }

  lemma {:induction false} UnreadableFrom<T>(lines: seq<Line<T>>, n: nat)
    requires n <= |lines| && Parsed(lines[..n]).None?
    ensures Parsed(lines).None?
    decreases |lines| - n
  {
    if n < |lines| {
      assert lines[..n + 1] == lines[..n] + [lines[n]];
      ParsedExtends(lines[..n], lines[n]);
      UnreadableFrom(lines, n + 1);
    } else {
      assert lines[..n] == lines;
    }
  }

  /** A file loads if and only if each of its lines parses, and then to their records in order. */
  lemma {:induction false} ParsesIff<T>(lines: seq<Line<T>>)
    ensures Parsed(lines).Some? <==> forall i | 0 <= i < |lines| :: lines[i].Whole?
    ensures Parsed(lines).Some? ==>
              |Parsed(lines).value| == |lines|
              && forall i | 0 <= i < |lines| :: Parsed(lines).value[i] == lines[i].record
  {
    if lines != [] {
      ParsesIff(lines[..|lines| - 1]);
    }
  }

  /** After a crash in the middle of an append to a file in order, the file loads if and only if the record was not cut,
      and then with all of it or with none. So the crashes after which a file loads are those between two records. */
  lemma CrashLoadsIff<T(!new)>(file: File<T>, r: T, after: File<T>)
    requires file.Terminated() && Loaded(file).Some? && LeftByCrash(file, r, after)
    ensures Loaded(after).Some? <==> after.tail != Some(Torn)
    ensures Loaded(after).Some? ==>
              Loaded(after).value == Loaded(file).value || Loaded(after).value == Loaded(file).value + [r]
  {
    ParsedExtends(file.lines, Whole(r));
    ParsedExtends(file.lines, Torn);
  }

  // ---- Whole histories of a file ----

  /** A write, or a crash that leaves a part of a record, or all of it but the newline. */
  datatype Event<+T> = Written(record: T) | CutShort | NotTerminated(record: T)

  function AfterEvent<T>(file: File<T>, e: Event<T>): File<T> {
    match e
    case Written(r) => Appended(file, r)
    case CutShort => File(file.lines, Some(Torn))
    case NotTerminated(r) => File(file.lines, Some(if file.Terminated() then Whole(r) else Torn))
  }

  function AfterEvents<T>(file: File<T>, es: seq<Event<T>>): File<T> {
    if es == [] then file else AfterEvent(AfterEvents(file, es[..|es| - 1]), es[|es| - 1])
  }

  /** No record was ever cut, and nothing came behind a missing newline. */
  ghost predicate Undamaged<T>(es: seq<Event<T>>) {
    forall i | 0 <= i < |es| :: !es[i].CutShort? && (es[i].NotTerminated? ==> i == |es| - 1)
  }

  function RecordsOf<T>(es: seq<Event<T>>): seq<T> {
    if es == [] then []
    else RecordsOf(es[..|es| - 1]) + if es[|es| - 1].CutShort? then [] else [es[|es| - 1].record]
  }

  /** A file that does not load never does again, whatever is written behind it. */
  lemma {:induction false} StaysUnreadable<T>(file: File<T>, es: seq<Event<T>>)
    requires Loaded(file).None?
    ensures Loaded(AfterEvents(file, es)).None?
  {
    if es != [] {
      var n := |es| - 1;
      StaysUnreadable(file, es[..n]);
      EventOnUnreadable(AfterEvents(file, es[..n]), es[n]);
    }
  }

  lemma EventOnUnreadable<T>(file: File<T>, e: Event<T>)
    requires Loaded(file).None?
    ensures Loaded(AfterEvent(file, e)).None?
  {
    if file.tail.Some? { ParsedExtends(file.lines, file.tail.value); }
    var after := AfterEvent(file, e);
    if e.Written? {
      ParsedExtends(file.lines, after.lines[|file.lines|]);
    } else {
      ParsedExtends(file.lines, after.tail.value);
    }
  }

  /** One event on a file that loads. */
  lemma EventOnReadable<T>(file: File<T>, e: Event<T>)
    requires Loaded(file).Some?
    ensures var after := AfterEvent(file, e);
            && (Loaded(after).Some? <==> file.Terminated() && !e.CutShort?)
            && (Loaded(after).Some? ==> Loaded(after).value == Loaded(file).value + [e.record])
            && (after.Terminated() <==> e.Written?)
  {
    if file.tail.Some? { ParsedExtends(file.lines, file.tail.value); }
    var after := AfterEvent(file, e);
    if e.Written? {
      ParsedExtends(file.lines, after.lines[|file.lines|]);
    } else {
      ParsedExtends(file.lines, after.tail.value);
    }
  }

  lemma UndamagedFront<T>(es: seq<Event<T>>)
    requires es != []
    ensures var front, last := es[..|es| - 1], es[|es| - 1];
            Undamaged(es) <==>
              Undamaged(front) && !last.CutShort? && (front != [] ==> !front[|front| - 1].NotTerminated?)
  {
    var front := es[..|es| - 1];
    forall i | 0 <= i < |front| ensures front[i] == es[i] {}
  }

  /** After any history a file loads if and only if no crash ever cut a record and nothing was written behind a missing
      newline; then it loads to exactly the records written. */
  lemma {:induction false} LoadsIff<T>(file: File<T>, es: seq<Event<T>>)
    requires file.Terminated() && Loaded(file).Some?
    ensures Loaded(AfterEvents(file, es)).Some? <==> Undamaged(es)
    ensures Undamaged(es) ==> Loaded(AfterEvents(file, es)) == Some(Loaded(file).value + RecordsOf(es))
    ensures AfterEvents(file, es).Terminated() <==> es == [] || es[|es| - 1].Written?
  {
    if es == [] {
      assert Loaded(file).value + [] == Loaded(file).value;
    } else {
      var front, last := es[..|es| - 1], es[|es| - 1];
      LoadsIff(file, front);
      UndamagedFront(es);
      if Undamaged(front) {
        EventOnReadable(AfterEvents(file, front), last);
        if !last.CutShort? {
          assert Loaded(file).value + RecordsOf(es) == Loaded(file).value + RecordsOf(front) + [last.record];
        }
      } else {
        EventOnUnreadable(AfterEvents(file, front), last);
      }
    }
  }

  // ---- What a loader finds that skips the lines that do not parse ----

  function Readable<T>(lines: seq<Line<T>>): seq<T> {
    if lines == [] then []
    else Readable(lines[..|lines| - 1]) + if lines[|lines| - 1].Whole? then [lines[|lines| - 1].record] else []
  }

  lemma {:induction false} ReadableExtends<T>(lines: seq<Line<T>>, line: Line<T>)
    ensures Readable(lines + [line]) == Readable(lines) + if line.Whole? then [line.record] else []
  {
    assert (lines + [line])[..|lines|] == lines;
  }

  /** The event comes first, or behind a record with its newline. */
  predicate OnItsOwnLine<T>(front: seq<Event<T>>) { front == [] || front[|front| - 1].Written? }

  /** The records with a line of their own and a newline. */
  function Settled<T>(es: seq<Event<T>>): seq<T> {
    if es == [] then []
    else
      var front, last := es[..|es| - 1], es[|es| - 1];
      Settled(front) + if last.Written? && OnItsOwnLine(front) then [last.record] else []
  }

  /** Besides, a record that came last and lacks only its newline. */
  function Survivors<T>(es: seq<Event<T>>): seq<T> {
    Settled(es) +
    if es != [] && es[|es| - 1].NotTerminated? && OnItsOwnLine(es[..|es| - 1]) then [es[|es| - 1].record] else []
  }

  /** What one event adds for such a loader. */
  lemma EventIsRead<T>(file: File<T>, e: Event<T>)
    ensures var after := AfterEvent(file, e);
            && Readable(after.lines) ==
                 Readable(file.lines) + (if e.Written? && file.Terminated() then [e.record] else [])
            && Readable(after.AllLines()) ==
                 Readable(after.lines) + (if e.NotTerminated? && file.Terminated() then [e.record] else [])
  {
    var after := AfterEvent(file, e);
    if e.Written? {
      ReadableExtends(file.lines, after.lines[|file.lines|]);
    } else {
      ReadableExtends(file.lines, after.tail.value);
    }
  }

  lemma {:induction false} TerminatedIff<T>(file: File<T>, es: seq<Event<T>>)
    requires file.Terminated()
    ensures AfterEvents(file, es).Terminated() <==> OnItsOwnLine(es)
  {
  }

  /** After any history exactly the survivors are found: a record goes down with the cut or unterminated one before it,
      and an unterminated one with whatever comes behind it. */
  lemma {:induction false} SurvivorsAreRead<T>(file: File<T>, es: seq<Event<T>>)
    requires file.Terminated()
    ensures Readable(AfterEvents(file, es).lines) == Readable(file.lines) + Settled(es)
    ensures Readable(AfterEvents(file, es).AllLines()) == Readable(file.lines) + Survivors(es)
  {
    if es == [] {
      Joins(Readable(file.lines), [], []);
    } else {
      var front, last := es[..|es| - 1], es[|es| - 1];
      SurvivorsAreRead(file, front);
      TerminatedIff(file, front);
      EventIsRead(AfterEvents(file, front), last);
      Joins(Readable(file.lines), Settled(front),
            if last.Written? && OnItsOwnLine(front) then [last.record] else []);
      Joins(Readable(file.lines), Settled(es),
            if last.NotTerminated? && OnItsOwnLine(front) then [last.record] else []);
    }
  }

  lemma Joins<T>(a: seq<T>, b: seq<T>, c: seq<T>)
    ensures a + b + c == a + (b + c)
    ensures a + [] == a
  {
  }

  /** Nothing but a further cut follows a cut, and nothing follows a missing newline. */
  ghost predicate NothingLost<T>(es: seq<Event<T>>) {
    forall i | 0 <= i < |es| - 1 :: es[i].Written? || (es[i].CutShort? && es[i + 1].CutShort?)
  }

  lemma NothingLostFront<T>(es: seq<Event<T>>)
    requires es != []
    ensures var front, last := es[..|es| - 1], es[|es| - 1];
            NothingLost(es) <==>
              NothingLost(front) && (OnItsOwnLine(front) || (front[|front| - 1].CutShort? && last.CutShort?))
  {
    var front := es[..|es| - 1];
    forall i | 0 <= i < |front| ensures front[i] == es[i] {}
  }

  /** All complete records survive a history if and only if that is so. */
  lemma {:induction false} AllSurviveIff<T>(es: seq<Event<T>>)
    ensures |Settled(es)| <= |Survivors(es)| <= |RecordsOf(es)|
    ensures Survivors(es) == RecordsOf(es) <==> NothingLost(es)
    ensures |Survivors(es)| == |RecordsOf(es)| <==> NothingLost(es)
  {
    if es != [] {
      AllSurviveIff(es[..|es| - 1]);
      NothingLostFront(es);
    }
  }
}
