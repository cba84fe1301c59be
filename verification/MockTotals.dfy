/** The mock exchange's grand totals: how the accept loop adds up what its connections report. */
module MockTotals {
  import opened Options

  datatype Totals = Totals(msgs: nat, bytes: nat, records: nat)

  const ZERO: Totals := Totals(0, 0, 0)

  function Plus(a: Totals, b: Totals): (t: Totals) {
    Totals(a.msgs + b.msgs, a.bytes + b.bytes, a.records + b.records)
  }

  /** A connection that was refused before its session began reports nothing. */
  type Report = Option<Totals>

  /** What the sessions really sent. */
  function Sent(reports: seq<Report>): (t: Totals) {
    if reports == [] then ZERO
    else
      var last := reports[|reports| - 1];
      Plus(Sent(reports[..|reports| - 1]), if last.Some? then last.value else ZERO)
  }

  /** The session totals still in scope after these connections: those of the last session. */
  function InScope(reports: seq<Report>): (t: Totals) {
    if reports == [] then ZERO
    else
      var last := reports[|reports| - 1];
      if last.Some? then last.value else InScope(reports[..|reports| - 1])
  }

  /** What is added a second time: the totals in scope at every refused connection. */
  function Recounted(reports: seq<Report>): (t: Totals) {
    if reports == [] then ZERO
    else
      var init := reports[..|reports| - 1];
      Plus(Recounted(init), if reports[|reports| - 1].None? then InScope(init) else ZERO)
  }

  function Grand(reports: seq<Report>): (t: Totals) {
    Plus(Sent(reports), Recounted(reports))
  }

  lemma NextSums(reports: seq<Report>, r: Report)
    ensures Sent(reports + [r]) == Plus(Sent(reports), if r.Some? then r.value else ZERO)
    ensures Recounted(reports + [r]) == Plus(Recounted(reports), if r.None? then InScope(reports) else ZERO)
    ensures InScope(reports + [r]) == if r.Some? then r.value else InScope(reports)
  {
    hide Plus;
    assert (reports + [r])[..|reports|] == reports;
  }

  /** A connection adds the totals in scope when it ends, its own or left over. */
  lemma NextReport(reports: seq<Report>, r: Report)
    ensures InScope(reports + [r]) == if r.Some? then r.value else InScope(reports)
    ensures Grand(reports + [r]) == Plus(Grand(reports), InScope(reports + [r]))
  {
    hide Sent, Recounted, InScope;
    NextSums(reports, r);
  }

  lemma NoReports(reports: seq<Report>)
    requires reports == []
    ensures Sent(reports) == Recounted(reports) == ZERO
  {
    hide InScope, Plus;
  }

  lemma GrandOfNone(reports: seq<Report>)
    requires reports == []
    ensures Grand(reports) == ZERO
  {
    hide Sent, Recounted, Plus;
    NoReports(reports);
    PlusZero(Sent(reports), Recounted(reports));
  }

  lemma PlusZero(a: Totals, b: Totals)
    ensures Plus(a, b) == a <==> b == ZERO
    ensures Plus(a, b) == ZERO <==> a == ZERO && b == ZERO
  {}

  /** Every refused connection finds nothing sent by the session before it. */
  ghost predicate NothingLeftOver(reports: seq<Report>) {
    forall i | 0 <= i < |reports| && reports[i].None? :: InScope(reports[..i]) == ZERO
  }

  lemma NothingLeftOverNext(reports: seq<Report>, r: Report)
    ensures NothingLeftOver(reports + [r]) <==>
            NothingLeftOver(reports) && (r.None? ==> InScope(reports) == ZERO)
  {
    hide InScope;
    var all := reports + [r];
    assert all[..|reports|] == reports;
    assert forall i | 0 <= i < |reports| :: all[..i] == reports[..i] && all[i] == reports[i];
    assert all[|reports|] == r;
  }

  /** The grand totals are the sum over the sessions if and only if no refused connection comes
      after a session that sent something. */
  lemma {:induction false} GrandTotalsExact(reports: seq<Report>)
    ensures Grand(reports) == Sent(reports) <==> NothingLeftOver(reports)
    ensures Recounted(reports) == ZERO <==> NothingLeftOver(reports)
  {
    hide Sent, Recounted, InScope, NothingLeftOver, Plus;
    if reports == [] {
      NoReports(reports);
      EmptyLeftOver(reports);
    } else {
      var init, r := reports[..|reports| - 1], reports[|reports| - 1];
      GrandTotalsExact(init);
      assert reports == init + [r];
      NothingLeftOverNext(init, r);
      NextSums(init, r);
      PlusZero(Recounted(init), if r.None? then InScope(init) else ZERO);
    }
    PlusZero(Sent(reports), Recounted(reports));
  }

  lemma EmptyLeftOver(reports: seq<Report>)
    requires reports == []
    ensures NothingLeftOver(reports)
  {}

  /** A session of one message, then a refused connection: two messages are reported. */
  lemma RefusalCountsTwice(t: Totals)
    requires t.msgs == 1
    ensures var reports := [Some(t), None];
            Sent(reports).msgs == 1 && Grand(reports).msgs == 2
  {
    hide Sent, Recounted, InScope;
    var one: seq<Report> := [Some(t)];
    NoReports([]);
    NextSums([], Some(t));
    NextReport([], Some(t));
    assert [] + one == one;
    NextSums(one, None);
    NextReport(one, None);
    assert [Some(t), None] == one + [None];
  }
}
