/** signer/server.js over runs of one account: the day's total against what was really signed and charged. */
module DayBooks {
  import opened Bytes
  import opened Proto
  import opened Signer
  import opened Spending
  import opened IntentRoute

  /** The size a step signs on paper, if it signs one. */
  function PaperSize(a: Account, e: Step): int {
    if e.Ask? then
      match Begin(a, e.r, e.now, e.day).1
      case SignedPaper(size) => size
      case _ => 0
    else 0
  }

  function AskedOn(a: Account, e: Step, day: int): int {
    if e.Ask? && e.day == day then PaperSize(a, e) else 0
  }

  /** What a run signs on paper on one day: the sizes in the answers to that day's requests. */
  function SignedOn(a: Account, steps: seq<Step>, day: int): int {
    if steps == [] then 0
    else
      var before, last := steps[..|steps| - 1], steps[|steps| - 1];
      SignedOn(a, before, day) + AskedOn(After(a, before).account, last, day)
  }

  /** The clock's days do not go back. */
  predicate DaysGoOn(start: int, steps: seq<Step>) {
    && (forall i :: 0 <= i < |steps| && steps[i].Ask? ==> start <= steps[i].day)
    && (forall i, j :: 0 <= i < j < |steps| && steps[i].Ask? && steps[j].Ask? ==> steps[i].day <= steps[j].day)
  }

  function Brought(a: Account, day: int): int {
    if day == a.day then a.spent else 0
  }

  /** The account's total is what the answers of its day add up to, and nothing was signed for later. */
  ghost predicate Balanced(a: Account, steps: seq<Step>) {
    var b := After(a, steps).account;
    && b.policy == a.policy && a.day <= b.day
    && (b.day == a.day || exists i :: 0 <= i < |steps| && steps[i].Ask? && steps[i].day == b.day)
    && b.spent == SignedOn(a, steps, b.day) + Brought(a, b.day)
    && (forall day :: day > b.day ==> SignedOn(a, steps, day) == 0)
    && (forall day :: SignedOn(a, steps, day) + Brought(a, day) <= a.policy.maxDaily)
  }

  lemma {:induction false} PaperBooks(a: Account, steps: seq<Step>)
    requires ValidPolicy(a.policy) && a.policy.paper && 0 <= a.spent <= a.policy.maxDaily && DaysGoOn(a.day, steps)
    ensures Balanced(a, steps)
  {
    if steps == [] {
      NothingDone(a);
    } else {
      var before, last := steps[..|steps| - 1], steps[|steps| - 1];
      PaperBooks(a, before);
      DailyCapPaper(a, before);
      PaperStepBooks(a, before, last);
      assert before + [last] == steps;
    }
  }

  lemma NothingDone(a: Account)
    requires ValidPolicy(a.policy) && 0 <= a.spent <= a.policy.maxDaily
    ensures Balanced(a, [])
  {
    assert forall day :: SignedOn(a, [], day) == 0;
  }

  lemma PaperStepBooks(a: Account, before: seq<Step>, last: Step)
    requires ValidPolicy(a.policy) && a.policy.paper && DaysGoOn(a.day, before + [last])
    requires Balanced(a, before) && After(a, before).inFlight == []
    ensures Balanced(a, before + [last])
  {
    hide Begin, After, SignedOn, Balanced, DaysGoOn;
    var steps, b := before + [last], After(a, before).account;
    OneMore(a, before, last);
    if last.Ask? {
      DayReached(a, before, last);
      AskBooks(a, before, last);
    } else {
      SameBooks(a, before, last);
    }
  }

  lemma OneMore(a: Account, before: seq<Step>, last: Step)
    ensures After(a, before + [last]) == Next(After(a, before), last)
    ensures forall day ::
      SignedOn(a, before + [last], day) == SignedOn(a, before, day) + AskedOn(After(a, before).account, last, day)
  {
    hide PaperSize;
    assert (before + [last])[..|before|] == before;
  }

  /** The request's day is not before the account's. */
  lemma DayReached(a: Account, before: seq<Step>, last: Step)
    requires last.Ask? && DaysGoOn(a.day, before + [last]) && Balanced(a, before)
    ensures After(a, before).account.day <= last.day
  {
    hide After, SignedOn;
    var steps, b := before + [last], After(a, before).account;
    assert steps[|before|] == last;
    if b.day != a.day {
      var i :| 0 <= i < |before| && before[i].Ask? && before[i].day == b.day;
      assert steps[i] == before[i];
    }
  }

  lemma SameBooks(a: Account, before: seq<Step>, last: Step)
    requires !last.Ask? && Balanced(a, before) && After(a, before).inFlight == []
    requires After(a, before + [last]) == Next(After(a, before), last)
    requires forall day :: SignedOn(a, before + [last], day) == SignedOn(a, before, day)
    ensures Balanced(a, before + [last])
  {
    hide After, SignedOn;
    var b := After(a, before).account;
    if b.day != a.day {
      var i :| 0 <= i < |before| && before[i].Ask? && before[i].day == b.day;
      assert (before + [last])[i] == before[i];
    }
  }

  lemma AskBooks(a: Account, before: seq<Step>, last: Step)
    requires last.Ask? && a.policy.paper && Balanced(a, before) && After(a, before).account.day <= last.day
    requires After(a, before + [last]) == Next(After(a, before), last)
    requires forall day ::
      SignedOn(a, before + [last], day) == SignedOn(a, before, day) + AskedOn(After(a, before).account, last, day)
    ensures Balanced(a, before + [last])
  {
    hide Begin, After, SignedOn, Admitted;
    var steps, b := before + [last], After(a, before).account;
    var c, out := Begin(b, last.r, last.now, last.day).0, Begin(b, last.r, last.now, last.day).1;
    AccountAfter(b, last.r, last.now, last.day);
    LiveIff(b, last.r, last.now, last.day);
    if out.SignedPaper? { SignedIff(b, last.r, last.now, last.day, out.size); }
    assert steps[|before|] == last;
    if b.day != a.day {
      var i :| 0 <= i < |before| && before[i].Ask? && before[i].day == b.day;
      assert steps[i] == before[i];
    }
    assert SignedOn(a, steps, last.day) == SignedOn(a, before, last.day) + PaperSize(b, last);
  }

  /** On no day do the trades signed on paper come to more than the daily limit, whatever the run; what
      was charged on the first day before it counts too. */
  lemma DailyLimitOnPaper(a: Account, steps: seq<Step>, day: int)
    requires ValidPolicy(a.policy) && a.policy.paper && 0 <= a.spent <= a.policy.maxDaily && DaysGoOn(a.day, steps)
    ensures SignedOn(a, steps, day) + (if day == a.day then a.spent else 0) <= a.policy.maxDaily
  {
    PaperBooks(a, steps);
  }

  // ---------------------------------------------------------------------------------------------
  // Live
  // ---------------------------------------------------------------------------------------------

  /** The charges that landed since the last step that opened a new day. */
  function LandedToday(a: Account, steps: seq<Step>): int {
    if steps == [] then a.spent
    else
      var before, last := steps[..|steps| - 1], steps[|steps| - 1];
      var s := After(a, before);
      if last.Ask? && After(a, steps).account.day != s.account.day then 0
      else if last.Land? && last.i < |s.inFlight| then
        match Charge(s.inFlight[last.i], last.inAmount, last.outAmount)
        case Some(c) => LandedToday(a, before) + c
        case None => LandedToday(a, before)
      else LandedToday(a, before)
  }

  /** The day's total of a live account is exactly what its swaps were charged that day. */
  lemma {:induction false} LiveBooks(a: Account, steps: seq<Step>)
    requires !a.policy.paper
    ensures After(a, steps).account.spent == LandedToday(a, steps) && After(a, steps).account.policy == a.policy
  {
    if steps != [] {
      hide Begin, Charge, Landed;
      var before, last := steps[..|steps| - 1], steps[|steps| - 1];
      LiveBooks(a, before);
      var s := After(a, before);
      match last
      case Ask(r, now, day) =>
        AccountAfter(s.account, r, now, day);
        NotOnPaper(s.account, r, now, day);
      case Land(i, inAmount, outAmount) =>
        if i < |s.inFlight| { AfterSwap(s.account, s.inFlight[i], inAmount, outAmount); }
      case Fail(_) =>
    }
  }

  lemma NotOnPaper(a: Account, r: Request, now: int, day: int)
    requires !a.policy.paper
    ensures !Begin(a, r, now, day).1.SignedPaper?
  {
    var out := Begin(a, r, now, day).1;
    if out.SignedPaper? { SignedIff(a, r, now, day, out.size); }
  }
}
