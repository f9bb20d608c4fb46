/** lib/verified-intent.js: when authenticated evidence leaves the submitter a choice between trades. */
module Choice {
  import opened Bytes
  import opened Text
  import opened VerifiedIntent

  ghost predicate GetsThrough(m: map<Value, int>, vi: Submission, o: Options, evs: seq<Evidence>, clock: seq<int>)
    requires |clock| == |evs|
  {
    vi.evidence == evs && Gate(m, vi, o, clock) == Verified
  }

  /** The evidence leaves the submitter a choice: two submissions of it pass, with different trades. */
  ghost predicate LeavesChoice(m: map<Value, int>, o: Options, evs: seq<Evidence>, clock: seq<int>)
    requires |clock| == |evs|
  {
    exists a, b ::
      GetsThrough(m, a, o, evs, clock) && GetsThrough(m, b, o, evs, clock) && !SameIntent(a.intent, b.intent)
  }

  predicate TokenFrom(rule: Rule, key: Text) {
    Nullish(rule.then_.token) && rule.then_.tokenInput == Some(key)
  }

  predicate SizeFrom(rule: Rule, key: Text) {
    Nullish(rule.then_.sizeSol) && rule.then_.sizeInput == Some(key)
  }

  /** No constant of the rule is NaN, which equals nothing. */
  predicate Sound(rule: Rule) {
    rule.id != NaN && rule.then_.kind != NaN && rule.then_.token != NaN && rule.then_.sizeSol != NaN
  }

  /** A value the evidence vouches for, that meets every condition on its input and, if it is to be the
      size, is a number. */
  ghost predicate Usable(o: Options, evs: seq<Evidence>, key: Text, v: Value) {
    && Backs(evs, key, v)
    && (forall i :: 0 <= i < |o.rule.when_| && o.rule.when_[i].input == key ==>
          Cmp(v, o.rule.when_[i].op, o.rule.when_[i].value))
    && (SizeFrom(o.rule, key) ==> ToNumber(o.coercion, v) != NaN)
  }

  /** The trade is another one for the one value than for the other. */
  predicate Decides(o: Options, key: Text, v: Value, w: Value) {
    || (TokenFrom(o.rule, key) && ToText(o.coercion, v) != ToText(o.coercion, w))
    || (SizeFrom(o.rule, key) && ToNumber(o.coercion, v) != ToNumber(o.coercion, w))
  }

  ghost predicate HasUsable(o: Options, evs: seq<Evidence>, key: Text) {
    exists v :: Usable(o, evs, key, v)
  }

  /** The evidence has something to offer for every required input. */
  ghost predicate AllUsable(o: Options, evs: seq<Evidence>) {
    forall i :: 0 <= i < |o.rule.requires_| ==> HasUsable(o, evs, o.rule.requires_[i])
  }

  ghost predicate Undecided(o: Options, evs: seq<Evidence>) {
    exists key, v, w :: Usable(o, evs, key, v) && Usable(o, evs, key, w) && Decides(o, key, v, w)
  }

  /** For every rule that requires what it looks at: evidence that passes leaves a choice exactly if it
      has a usable value for every required input, and two for one that name different tokens or sizes. */
  lemma ChoiceIff(m: map<Value, int>, o: Options, evs: seq<Evidence>, clock: seq<int>)
    requires Covered(o.rule) && |clock| == |evs| && JudgeAll(m, evs, o, clock).0 == Verified
    ensures LeavesChoice(m, o, evs, clock) <==>
      && Sound(o.rule)
      && AllUsable(o, evs)
      && Undecided(o, evs)
  {
    hide JudgeAll, Usable, GetsThrough, SameIntent, Decides;
    if a, b :| GetsThrough(m, a, o, evs, clock) && GetsThrough(m, b, o, evs, clock) && !SameIntent(a.intent, b.intent) {
      PassingIsUsable(m, a, o, evs, clock);
      PassingIsUsable(m, b, o, evs, clock);
      var key := TradesDiffer(o, a, b);
      assert Usable(o, evs, key, In(a.inputs, key)) && Usable(o, evs, key, In(b.inputs, key));
    }
    if Sound(o.rule) && Undecided(o, evs) && AllUsable(o, evs) {
      var key, v, w :| Usable(o, evs, key, v) && Usable(o, evs, key, w) && Decides(o, key, v, w);
      TwoValuesTwoTrades(m, o, evs, clock, key, v, w);
    }
  }

  /** What a passing submission claims is usable, and its trade is the rule's. */
  lemma PassingIsUsable(m: map<Value, int>, vi: Submission, o: Options, evs: seq<Evidence>, clock: seq<int>)
    requires Covered(o.rule) && |clock| == |evs| && GetsThrough(m, vi, o, evs, clock)
    ensures Sound(o.rule)
    ensures forall i :: 0 <= i < |o.rule.requires_| ==>
      Usable(o, evs, o.rule.requires_[i], In(vi.inputs, o.rule.requires_[i]))
    ensures Evaluate(o.coercion, o.rule, vi.inputs).Some?
    ensures SameIntent(Evaluate(o.coercion, o.rule, vi.inputs).value, vi.intent)
  {
    hide JudgeAll, Backs, ToText, ToNumber, Covered;
  }

  lemma SameTrades(x: Intent, y: Intent, a: Intent, b: Intent)
    requires SameIntent(x, a) && SameIntent(y, b) && SameIntent(x, y)
    ensures SameIntent(a, b)
  {
  }

  /** Passing submissions with different trades claim different things of one input. */
  lemma TradesDiffer(o: Options, a: Submission, b: Submission) returns (key: Text)
    requires Covered(o.rule) && Sound(o.rule) && !SameIntent(a.intent, b.intent)
    requires Evaluate(o.coercion, o.rule, a.inputs).Some? && Evaluate(o.coercion, o.rule, b.inputs).Some?
    requires SameIntent(Evaluate(o.coercion, o.rule, a.inputs).value, a.intent)
    requires SameIntent(Evaluate(o.coercion, o.rule, b.inputs).value, b.intent)
    ensures key in o.rule.requires_ && Decides(o, key, In(a.inputs, key), In(b.inputs, key))
  {
    hide ToText, ToNumber, In;
    var x, y := Evaluate(o.coercion, o.rule, a.inputs).value, Evaluate(o.coercion, o.rule, b.inputs).value;
    if SameIntent(x, y) {
      SameTrades(x, y, a.intent, b.intent);
      assert false;
    }
    if x.token != y.token {
      key := o.rule.then_.tokenInput.value;
    } else {
      key := o.rule.then_.sizeInput.value;
    }
    assert Looks(o.rule, key);
  }

  /** Usable inputs get the rule's trade through. */
  lemma UsableGetsThrough(m: map<Value, int>, o: Options, evs: seq<Evidence>, clock: seq<int>, inputs: map<Text, Value>)
    requires Covered(o.rule) && Sound(o.rule) && |clock| == |evs| && JudgeAll(m, evs, o, clock).0 == Verified
    requires forall i :: 0 <= i < |o.rule.requires_| ==>
      Usable(o, evs, o.rule.requires_[i], In(inputs, o.rule.requires_[i]))
    ensures Evaluate(o.coercion, o.rule, inputs).Some?
    ensures var x := Evaluate(o.coercion, o.rule, inputs).value;
      GetsThrough(m, Submission(o.rule.id, inputs, evs, x), o, evs, clock)
  {
    hide JudgeAll, Backs, ToText, ToNumber, In;
    forall key | Looks(o.rule, key) ensures Usable(o, evs, key, In(inputs, key)) {
      var i :| 0 <= i < |o.rule.requires_| && o.rule.requires_[i] == key;
    }
    forall i | 0 <= i < |o.rule.when_| ensures Holds(o.rule.when_[i], inputs) {
      assert Looks(o.rule, o.rule.when_[i].input);
    }
    OwnTrade(o, inputs);
  }

  lemma OwnTrade(o: Options, inputs: map<Text, Value>)
    requires Sound(o.rule) && Evaluate(o.coercion, o.rule, inputs).Some?
    requires forall key :: SizeFrom(o.rule, key) ==> ToNumber(o.coercion, In(inputs, key)) != NaN
    ensures var x := Evaluate(o.coercion, o.rule, inputs).value; SameIntent(x, x)
  {
    hide ToText, ToNumber, In, Holds;
    if Nullish(o.rule.then_.sizeSol) && o.rule.then_.sizeInput.Some? {
      assert SizeFrom(o.rule, o.rule.then_.sizeInput.value);
    }
  }

  ghost function Pick(o: Options, evs: seq<Evidence>, key: Text): (v: Value)
    requires HasUsable(o, evs, key)
    ensures Usable(o, evs, key, v)
  {
    var v :| Usable(o, evs, key, v);
    v
  }

  /** Inputs that claim this value for one key and some usable value for every other. */
  ghost function Claiming(o: Options, evs: seq<Evidence>, key: Text, v: Value): map<Text, Value>
    requires AllUsable(o, evs)
  {
    (map k | k in o.rule.requires_ :: Pick(o, evs, k))[key := v]
  }

  /** Two usable values that decide differently are two passing trades. */
  lemma TwoValuesTwoTrades(m: map<Value, int>, o: Options, evs: seq<Evidence>, clock: seq<int>, key: Text, v: Value,
                           w: Value)
    requires Covered(o.rule) && Sound(o.rule) && |clock| == |evs| && JudgeAll(m, evs, o, clock).0 == Verified
    requires AllUsable(o, evs)
    requires Usable(o, evs, key, v) && Usable(o, evs, key, w) && Decides(o, key, v, w)
    ensures LeavesChoice(m, o, evs, clock)
  {
    hide JudgeAll, Usable, GetsThrough, Covered, HasUsable, Decides, Evaluate, SameIntent;
    var a, b := Claiming(o, evs, key, v), Claiming(o, evs, key, w);
    UsableGetsThrough(m, o, evs, clock, a);
    UsableGetsThrough(m, o, evs, clock, b);
    var x, y := Evaluate(o.coercion, o.rule, a).value, Evaluate(o.coercion, o.rule, b).value;
    DecidedTrades(o, evs, key, v, w, a, b);
    var sa, sb := Submission(o.rule.id, a, evs, x), Submission(o.rule.id, b, evs, y);
    assert GetsThrough(m, sa, o, evs, clock) && GetsThrough(m, sb, o, evs, clock) && !SameIntent(sa.intent, sb.intent);
  }

  lemma DecidedTrades(o: Options, evs: seq<Evidence>, key: Text, v: Value, w: Value,
                      a: map<Text, Value>, b: map<Text, Value>)
    requires In(a, key) == v && In(b, key) == w && Decides(o, key, v, w)
    requires Usable(o, evs, key, v) && Usable(o, evs, key, w)
    requires Evaluate(o.coercion, o.rule, a).Some? && Evaluate(o.coercion, o.rule, b).Some?
    ensures !SameIntent(Evaluate(o.coercion, o.rule, a).value, Evaluate(o.coercion, o.rule, b).value)
  {
    hide ToText, Holds, Backs;
  }

  /** A rule that trades whatever token one required input names. */
  predicate TokenRule(rule: Rule, key: Text) {
    rule.when_ == [] && TokenFrom(rule, key) && !SizeFrom(rule, key) && rule.requires_ == [key]
  }

  /** A quote and an inference receipt already do, both genuine and fresh: the receipt's verdict passes
      for the quoted input, so the submitter picks the token. */
  lemma ReceiptBreaksIt(m: map<Value, int>, o: Options, quote: Evidence, receipt: Evidence, now: int, key: Text)
    requires TokenRule(o.rule, key) && Covered(o.rule) && Sound(o.rule)
    requires quote.Quote? && key in quote.data && quote.data[key] != NaN
    requires receipt.Receipt? && receipt.verdict != Undef && receipt.verdict != NaN
    requires ToText(o.coercion, quote.data[key]) != ToText(o.coercion, receipt.verdict)
    requires Fault(quote, o, now).None? && Fault(receipt, o, now).None?
    requires quote.nonce != receipt.nonce && quote.nonce !in m && receipt.nonce !in m
    ensures !SingleValued([quote, receipt], key) && LeavesChoice(m, o, [quote, receipt], [now, now])
  {
    hide Fault, ToText, LeavesChoice, Covered;
    var evs, v, w := [quote, receipt], quote.data[key], receipt.verdict;
    assert ItemBacks(evs[0], key, v) && ItemBacks(evs[1], key, w);
    assert Backs(evs, key, v) && Backs(evs, key, w);
    BothJudged(m, o, quote, receipt, now);
    assert Usable(o, evs, key, v) && Usable(o, evs, key, w);
    TwoValuesTwoTrades(m, o, evs, [now, now], key, v, w);
  }

  lemma BothJudged(m: map<Value, int>, o: Options, a: Evidence, b: Evidence, now: int)
    requires !a.Unknown? && !b.Unknown? && Fault(a, o, now).None? && Fault(b, o, now).None?
    requires a.nonce != b.nonce && a.nonce !in m && b.nonce !in m
    ensures JudgeAll(m, [a, b], o, [now, now]).0 == Verified
  {
    hide Fault;
    var m' := After(m, a, o, now);
    assert [a, b][1..] == [b] && [now, now][1..] == [now];
    assert [b][1..] == [] && [now][1..] == [];
    assert Judge(m, a, o, now) == Verified;
    assert b.nonce !in m';
    assert Judge(m', b, o, now) == Verified;
    assert JudgeAll(After(m', b, o, now), [], o, []) == (Verified, After(m', b, o, now));
    assert JudgeAll(m', [b], o, [now]).0 == Verified;
  }
}
