/** lib/verified-intent.js: the gate that lets a trade through only if the owner's rule, run on
    authenticated inputs, yields exactly that trade; and the nonce store of signer/server.js. */
module VerifiedIntent {
  import opened Bytes
  import opened Text

  /** JavaScript values as far as the gate looks at them. Objects are references: each parsed request
      makes new ones. */
  datatype Value = Undef | Null | NaN | Bool(b: bool) | Num(n: int) | Str(s: Text) | Ref(id: int)

  /** `===`. */
  predicate Same(a: Value, b: Value) {
    a == b && a != NaN
  }

  /** What `Number(x)` and `String(x)` make of texts and objects. */
  datatype Coercion = Coercion(number: Value -> Value, text: Value -> Text)

  function ToNumber(c: Coercion, v: Value): Value {
    match v
    case Undef => NaN
    case Null => Num(0)
    case NaN => NaN
    case Bool(b) => Num(if b then 1 else 0)
    case Num(_) => v
    case _ => if c.number(v).Num? then c.number(v) else NaN
  }

  function ToText(c: Coercion, v: Value): Text {
    match v
    case Undef => Ascii("undefined")
    case Null => Ascii("null")
    case NaN => Ascii("NaN")
    case Bool(b) => if b then Ascii("true") else Ascii("false")
    case Num(n) => DecimalInt(n)
    case Str(s) => s
    case Ref(_) => c.text(v)
  }

  // ---------------------------------------------------------------------------------------------
  // Evidence
  // ---------------------------------------------------------------------------------------------

  datatype Evidence =
    | Quote(key: Text, stamp: Value, nonce: Value, data: map<Text, Value>, sig: Text)
    | Receipt(key: Text, stamp: Value, nonce: Value, verdict: Value, sig: Text)
    | ZkTls(notary: Text, stamp: Value, nonce: Value, claim: map<Text, Value>, proof: Text)
    | Unknown

  datatype Operator = Eq | Ne | Lt | Le | Gt | Ge | OtherOp

  datatype Condition = Condition(input: Text, op: Operator, value: Value)

  datatype Outcome = Outcome(kind: Value, token: Value, tokenInput: Option<Text>, sizeSol: Value,
                             sizeInput: Option<Text>)

  datatype Rule = Rule(id: Value, when_: seq<Condition>, then_: Outcome, requires_: seq<Text>)

  datatype Intent = Intent(kind: Value, token: Value, sizeSol: Value)

  /** The owner's settings. `genuine` is the signature check and `proven` the optional zkTLS check. */
  datatype Options = Options(rule: Rule, acceptedKeys: map<Text, Text>, acceptedNotaries: set<Text>, maxAgeMs: int,
                             genuine: Evidence -> bool, proven: Option<Evidence -> bool>, requireProof: bool,
                             coercion: Coercion)

  datatype Submission = Submission(rule: Value, inputs: map<Text, Value>, evidence: seq<Evidence>, intent: Intent)

  datatype Code =
    | EvidenceUnknown | UntrustedKey | Invalid | Stale | Replay | UntrustedNotary | ZkTlsUnverified
    | UnknownRule | InputMismatch | DecisionUnjustified | Verified

  /** `opts.maxAgeMs || 60000`. */
  function MaxAge(o: Options): int {
    if o.maxAgeMs == 0 then 60000 else o.maxAgeMs
  }

  /** `now - stamp > maxAge`: never, for a stamp that is no number. */
  predicate TooOld(o: Options, stamp: Value, now: int) {
    ToNumber(o.coercion, stamp).Num? && now - ToNumber(o.coercion, stamp).n > MaxAge(o)
  }

  /** What is found wrong with an item before the nonce store is asked. */
  function Fault(ev: Evidence, o: Options, now: int): Option<Code> {
    match ev
    case Unknown => Some(EvidenceUnknown)
    case Quote(key, stamp, _, _, _) =>
      if !(key in o.acceptedKeys && o.acceptedKeys[key] == Ascii("data")) then Some(UntrustedKey)
      else if !o.genuine(ev) then Some(Invalid)
      else if TooOld(o, stamp, now) then Some(Stale)
      else None
    case Receipt(key, stamp, _, _, _) =>
      if !(key in o.acceptedKeys && o.acceptedKeys[key] == Ascii("inference")) then Some(UntrustedKey)
      else if !o.genuine(ev) then Some(Invalid)
      else if TooOld(o, stamp, now) then Some(Stale)
      else None
    case ZkTls(notary, stamp, _, _, _) =>
      if notary !in o.acceptedNotaries then Some(UntrustedNotary)
      else if o.proven.Some? && !o.proven.value(ev) then Some(Invalid)
      else if o.proven.None? && o.requireProof then Some(ZkTlsUnverified)
      else if TooOld(o, stamp, now) then Some(Stale)
      else None
  }

  // ---------------------------------------------------------------------------------------------
  // The nonce store of the signer
  // ---------------------------------------------------------------------------------------------

  const LIMIT: nat := 5000
  const KEEP_MS := 300000

  function Recent(m: map<Value, int>, now: int): map<Value, int> {
    map k | k in m && !(now - m[k] > KEEP_MS) :: m[k]
  }

  function Remember(m: map<Value, int>, n: Value, now: int): map<Value, int> {
    var m' := m[n := now];
    if |m'| > LIMIT then Recent(m', now) else m'
  }

  function Judge(m: map<Value, int>, ev: Evidence, o: Options, now: int): Code {
    if Fault(ev, o, now).Some? then Fault(ev, o, now).value
    else if ev.nonce in m then Replay
    else Verified
  }

  function After(m: map<Value, int>, ev: Evidence, o: Options, now: int): map<Value, int> {
    if Judge(m, ev, o, now) == Verified && !ev.Unknown? then Remember(m, ev.nonce, now) else m
  }

  /** All items in order, up to the first that fails. */
  function JudgeAll(m: map<Value, int>, evs: seq<Evidence>, o: Options, clock: seq<int>): (Code, map<Value, int>)
    requires |clock| == |evs|
    decreases |evs|
  {
    if evs == [] then (Verified, m)
    else
      var c := Judge(m, evs[0], o, clock[0]);
      var m' := After(m, evs[0], o, clock[0]);
      if c == Verified then JudgeAll(m', evs[1..], o, clock[1..]) else (c, m')
  }

  lemma JudgeStep(m: map<Value, int>, evs: seq<Evidence>, o: Options, clock: seq<int>, i: nat)
    requires i < |evs| == |clock|
    ensures JudgeAll(m, evs[i..], o, clock[i..])
         == if Judge(m, evs[i], o, clock[i]) == Verified
            then JudgeAll(After(m, evs[i], o, clock[i]), evs[i + 1..], o, clock[i + 1..])
            else (Judge(m, evs[i], o, clock[i]), After(m, evs[i], o, clock[i]))
  {
    hide Judge, After;
    assert evs[i..][1..] == evs[i + 1..] && clock[i..][1..] == clock[i + 1..];
  }

  class Nonces {
    var m: map<Value, int>

    constructor ()
      ensures m == map[]
    {
      m := map[];
    }

    method Add(n: Value, now: int)
      modifies this
      ensures m == Remember(old(m), n, now)
    {
      m := m[n := now];
      if |m| > LIMIT {
        ghost var m0 := m;
        var todo := m.Keys;
        while todo != {}
          invariant todo <= m0.Keys && m.Keys <= m0.Keys
          invariant forall k :: k in m ==> m[k] == m0[k]
          invariant forall k :: k in m0 ==> (k in m <==> k in todo || !(now - m0[k] > KEEP_MS))
          decreases |todo|
        {
          var k :| k in todo;
          if now - m[k] > KEEP_MS { m := m - {k}; }
          todo := todo - {k};
        }
        assert m == Recent(m0, now);
      }
    }
  }

  /** `verifyEvidence`. */
  method VerifyEvidence(replay: Nonces, ev: Evidence, o: Options, now: int) returns (r: Code)
    modifies replay
    ensures r == Judge(old(replay.m), ev, o, now) && replay.m == After(old(replay.m), ev, o, now)
  {
    match ev
    case Unknown => return EvidenceUnknown;
    case Quote(key, stamp, nonce, _, _) =>
      if !(key in o.acceptedKeys && o.acceptedKeys[key] == Ascii("data")) { return UntrustedKey; }
      if !o.genuine(ev) { return Invalid; }
      if TooOld(o, stamp, now) { return Stale; }
      if nonce in replay.m { return Replay; }
      replay.Add(nonce, now);
      return Verified;
    case Receipt(key, stamp, nonce, _, _) =>
      if !(key in o.acceptedKeys && o.acceptedKeys[key] == Ascii("inference")) { return UntrustedKey; }
      if !o.genuine(ev) { return Invalid; }
      if TooOld(o, stamp, now) { return Stale; }
      if nonce in replay.m { return Replay; }
      replay.Add(nonce, now);
      return Verified;
    case ZkTls(notary, stamp, nonce, _, _) =>
      if notary !in o.acceptedNotaries { return UntrustedNotary; }
      if o.proven.Some? {
        if !o.proven.value(ev) { return Invalid; }
      } else if o.requireProof {
        return ZkTlsUnverified;
      }
      if TooOld(o, stamp, now) { return Stale; }
      if nonce in replay.m { return Replay; }
      replay.Add(nonce, now);
      return Verified;
  }

  // ---------------------------------------------------------------------------------------------
  // The gate
  // ---------------------------------------------------------------------------------------------

  /** `inputs[key]`. */
  function In(inputs: map<Text, Value>, key: Text): Value {
    if key in inputs then inputs[key] else Undef
  }

  /** The values one item vouches for under a key; a receipt's verdict stands under every key. */
  predicate ItemBacks(ev: Evidence, key: Text, v: Value) {
    match ev
    case Quote(_, _, _, data, _) => key in data && Same(data[key], v)
    case ZkTls(_, _, _, claim, _) => key in claim && Same(claim[key], v)
    case Receipt(_, _, _, verdict, _) => verdict != Undef && Same(verdict, v)
    case Unknown => false
  }

  predicate Backs(evs: seq<Evidence>, key: Text, v: Value) {
    exists i :: 0 <= i < |evs| && ItemBacks(evs[i], key, v)
  }

  method EvidenceBacks(evs: seq<Evidence>, key: Text, v: Value) returns (r: bool)
    ensures r <==> Backs(evs, key, v)
  {
    for i := 0 to |evs|
      invariant forall j :: 0 <= j < i ==> !ItemBacks(evs[j], key, v)
    {
      if ItemBacks(evs[i], key, v) { return true; }
    }
    return false;
  }

  predicate Cmp(a: Value, op: Operator, b: Value) {
    match op
    case Eq => Same(a, b)
    case Ne => !Same(a, b)
    case Lt => a.Num? && b.Num? && a.n < b.n
    case Le => a.Num? && b.Num? && a.n <= b.n
    case Gt => a.Num? && b.Num? && a.n > b.n
    case Ge => a.Num? && b.Num? && a.n >= b.n
    case OtherOp => false
  }

  /** `x == null`. */
  predicate Nullish(v: Value) {
    v == Undef || v == Null
  }

  /** `nn`. */
  function Merge(v: Value): Value {
    if v == Undef then Null else v
  }

  predicate Holds(c: Condition, inputs: map<Text, Value>) {
    Cmp(In(inputs, c.input), c.op, c.value)
  }

  /** The trade the rule makes of some inputs, if its conditions hold. */
  function Evaluate(c: Coercion, rule: Rule, inputs: map<Text, Value>): Option<Intent> {
    if exists i :: 0 <= i < |rule.when_| && !Holds(rule.when_[i], inputs) then None
    else
      var t := rule.then_;
      var token :=
        if !Nullish(t.token) then t.token
        else if t.tokenInput.Some? then Str(ToText(c, In(inputs, t.tokenInput.value)))
        else Undef;
      var size :=
        if !Nullish(t.sizeSol) then t.sizeSol
        else if t.sizeInput.Some? then ToNumber(c, In(inputs, t.sizeInput.value))
        else Undef;
      Some(Intent(t.kind, token, size))
  }

  /** `evaluateRule`. */
  method EvaluateRule(c: Coercion, rule: Rule, inputs: map<Text, Value>) returns (r: Option<Intent>)
    ensures r == Evaluate(c, rule, inputs)
  {
    for i := 0 to |rule.when_|
      invariant forall j :: 0 <= j < i ==> Holds(rule.when_[j], inputs)
    {
      if !Holds(rule.when_[i], inputs) { return None; }
    }
    var t := rule.then_;
    var token, size := Undef, Undef;
    if !Nullish(t.token) {
      token := t.token;
    } else if t.tokenInput.Some? {
      token := Str(ToText(c, In(inputs, t.tokenInput.value)));
    }
    if !Nullish(t.sizeSol) {
      size := t.sizeSol;
    } else if t.sizeInput.Some? {
      size := ToNumber(c, In(inputs, t.sizeInput.value));
    }
    return Some(Intent(t.kind, token, size));
  }

  predicate SameIntent(a: Intent, b: Intent) {
    Same(a.kind, b.kind) && Same(Merge(a.token), Merge(b.token)) && Same(Merge(a.sizeSol), Merge(b.sizeSol))
  }

  /** What is decided once the evidence is in. */
  function Decide(vi: Submission, o: Options): Code {
    var keys := o.rule.requires_;
    if exists i :: 0 <= i < |keys| && !Backs(vi.evidence, keys[i], In(vi.inputs, keys[i])) then InputMismatch
    else
      var expected := Evaluate(o.coercion, o.rule, vi.inputs);
      if expected.None? || !SameIntent(expected.value, vi.intent) then DecisionUnjustified else Verified
  }

  function Gate(m: map<Value, int>, vi: Submission, o: Options, clock: seq<int>): Code
    requires |clock| == |vi.evidence|
  {
    if !Same(vi.rule, o.rule.id) then UnknownRule
    else
      var c := JudgeAll(m, vi.evidence, o, clock).0;
      if c != Verified then c else Decide(vi, o)
  }

  function AfterGate(m: map<Value, int>, vi: Submission, o: Options, clock: seq<int>): map<Value, int>
    requires |clock| == |vi.evidence|
  {
    if !Same(vi.rule, o.rule.id) then m else JudgeAll(m, vi.evidence, o, clock).1
  }

  /** `decisionGate`; `clock` holds the reading each item is judged by. */
  method DecisionGate(replay: Nonces, vi: Submission, o: Options, clock: seq<int>) returns (r: Code)
    requires |clock| == |vi.evidence|
    modifies replay
    ensures r == Gate(old(replay.m), vi, o, clock) && replay.m == AfterGate(old(replay.m), vi, o, clock)
  {
    hide Judge, After, Backs, Evaluate, SameIntent, In;
    if !Same(vi.rule, o.rule.id) { return UnknownRule; }
    var evs := vi.evidence;
    for i := 0 to |evs|
      invariant JudgeAll(old(replay.m), evs, o, clock) == JudgeAll(replay.m, evs[i..], o, clock[i..])
    {
      ghost var before := replay.m;
      var c := VerifyEvidence(replay, evs[i], o, clock[i]);
      JudgeStep(before, evs, o, clock, i);
      if c != Verified { return c; }
    }
    assert evs[|evs|..] == [];
    for i := 0 to |o.rule.requires_|
      invariant JudgeAll(old(replay.m), evs, o, clock) == (Verified, replay.m)
      invariant forall j :: 0 <= j < i ==> Backs(evs, o.rule.requires_[j], In(vi.inputs, o.rule.requires_[j]))
    {
      var ok := EvidenceBacks(evs, o.rule.requires_[i], In(vi.inputs, o.rule.requires_[i]));
      if !ok { return InputMismatch; }
    }
    var expected := EvaluateRule(o.coercion, o.rule, vi.inputs);
    if expected.None? || !SameIntent(expected.value, vi.intent) { return DecisionUnjustified; }
    return Verified;
  }

  // ---------------------------------------------------------------------------------------------
  // The evidence determines the trade
  // ---------------------------------------------------------------------------------------------

  /** The inputs the rule looks at. */
  ghost predicate Looks(rule: Rule, key: Text) {
    || (exists i :: 0 <= i < |rule.when_| && rule.when_[i].input == key)
    || (Nullish(rule.then_.token) && rule.then_.tokenInput == Some(key))
    || (Nullish(rule.then_.sizeSol) && rule.then_.sizeInput == Some(key))
  }

  ghost predicate Covered(rule: Rule) {
    forall key :: Looks(rule, key) ==> key in rule.requires_
  }

  ghost predicate SingleValued(evs: seq<Evidence>, key: Text) {
    forall v, w :: Backs(evs, key, v) && Backs(evs, key, w) ==> v == w
  }

  /** What one item says about a key. */
  function ItemTells(ev: Evidence, key: Text): Option<Value> {
    match ev
    case Quote(_, _, _, data, _) => if key in data && data[key] != NaN then Some(data[key]) else None
    case ZkTls(_, _, _, claim, _) => if key in claim && claim[key] != NaN then Some(claim[key]) else None
    case Receipt(_, _, _, verdict, _) => if verdict != Undef && verdict != NaN then Some(verdict) else None
    case Unknown => None
  }

  /** The first thing said about a key. */
  function Tells(evs: seq<Evidence>, key: Text): Option<Value> {
    if evs == [] then None
    else if ItemTells(evs[0], key).Some? then ItemTells(evs[0], key)
    else Tells(evs[1..], key)
  }

  /** The inputs read off the evidence alone: nothing the submitter claims goes in. */
  function Read(evs: seq<Evidence>, keys: seq<Text>): map<Text, Value> {
    map k | k in keys && Tells(evs, k).Some? :: Tells(evs, k).value
  }

  lemma {:induction false} TellsIsBacked(evs: seq<Evidence>, key: Text)
    ensures Tells(evs, key).Some? ==> Backs(evs, key, Tells(evs, key).value)
    ensures Tells(evs, key).None? ==> forall v :: !Backs(evs, key, v)
  {
    if evs != [] {
      TellsIsBacked(evs[1..], key);
      if ItemTells(evs[0], key).Some? {
        assert ItemBacks(evs[0], key, ItemTells(evs[0], key).value);
      } else if Tells(evs, key).Some? {
        var v := Tells(evs, key).value;
        var i :| 0 <= i < |evs[1..]| && ItemBacks(evs[1..][i], key, v);
        assert evs[i + 1] == evs[1..][i];
      } else {
        forall v ensures !Backs(evs, key, v) {
          if Backs(evs, key, v) {
            var i :| 0 <= i < |evs| && ItemBacks(evs[i], key, v);
            if i > 0 { assert evs[1..][i - 1] == evs[i]; }
            assert Backs(evs[1..], key, v);
            assert false;
          }
        }
      }
    }
  }

  lemma SameInputsSameTrade(c: Coercion, rule: Rule, a: map<Text, Value>, b: map<Text, Value>)
    requires forall key :: Looks(rule, key) ==> In(a, key) == In(b, key)
    ensures Evaluate(c, rule, a) == Evaluate(c, rule, b)
  {
    forall i | 0 <= i < |rule.when_| ensures Holds(rule.when_[i], a) == Holds(rule.when_[i], b) {
      assert Looks(rule, rule.when_[i].input);
    }
  }

  /** Claimed inputs that are backed are the ones read off the evidence. */
  lemma BackedInputs(evs: seq<Evidence>, rule: Rule, inputs: map<Text, Value>)
    requires Covered(rule) && forall i :: 0 <= i < |rule.requires_| ==> SingleValued(evs, rule.requires_[i])
    requires forall i :: 0 <= i < |rule.requires_| ==> Backs(evs, rule.requires_[i], In(inputs, rule.requires_[i]))
    ensures forall key :: Looks(rule, key) ==> In(inputs, key) == In(Read(evs, rule.requires_), key)
  {
    forall key | Looks(rule, key) ensures In(inputs, key) == In(Read(evs, rule.requires_), key) {
      var i :| 0 <= i < |rule.requires_| && rule.requires_[i] == key;
      TellsIsBacked(evs, key);
    }
  }

  /** With every input the rule looks at required, and one value for each required input in the
      evidence, a trade can be got past the gate exactly when the evidence vouches for every required
      input and the rule makes that trade of the values read off the evidence. */
  lemma TradeIsRuleOnEvidence(o: Options, evs: seq<Evidence>, intent: Intent)
    requires Covered(o.rule) && forall i :: 0 <= i < |o.rule.requires_| ==> SingleValued(evs, o.rule.requires_[i])
    ensures (exists inputs :: Decide(Submission(o.rule.id, inputs, evs, intent), o) == Verified)
       <==> (forall i :: 0 <= i < |o.rule.requires_| ==> Tells(evs, o.rule.requires_[i]).Some?)
            && Evaluate(o.coercion, o.rule, Read(evs, o.rule.requires_)).Some?
            && SameIntent(Evaluate(o.coercion, o.rule, Read(evs, o.rule.requires_)).value, intent)
  {
    hide Evaluate, SameIntent, Looks, SingleValued, Decide, Tells, Read, Backs;
    var told := Read(evs, o.rule.requires_);
    if exists inputs :: Decide(Submission(o.rule.id, inputs, evs, intent), o) == Verified {
      var inputs :| Decide(Submission(o.rule.id, inputs, evs, intent), o) == Verified;
      PassingTrade(o, evs, intent, inputs);
    }
    if forall i :: 0 <= i < |o.rule.requires_| ==> Tells(evs, o.rule.requires_[i]).Some? {
      ToldPasses(o, evs, intent);
      assert Decide(Submission(o.rule.id, told, evs, intent), o) == Verified
        <==> Evaluate(o.coercion, o.rule, told).Some? && SameIntent(Evaluate(o.coercion, o.rule, told).value, intent);
    }
  }

  lemma PassingTrade(o: Options, evs: seq<Evidence>, intent: Intent, inputs: map<Text, Value>)
    requires Covered(o.rule) && forall i :: 0 <= i < |o.rule.requires_| ==> SingleValued(evs, o.rule.requires_[i])
    requires Decide(Submission(o.rule.id, inputs, evs, intent), o) == Verified
    ensures forall i :: 0 <= i < |o.rule.requires_| ==> Tells(evs, o.rule.requires_[i]).Some?
    ensures Evaluate(o.coercion, o.rule, Read(evs, o.rule.requires_)).Some?
    ensures SameIntent(Evaluate(o.coercion, o.rule, Read(evs, o.rule.requires_)).value, intent)
  {
    hide Evaluate, SameIntent, Looks, SingleValued, Tells, Read, Backs, Covered;
    var keys := o.rule.requires_;
    forall i | 0 <= i < |keys| ensures Tells(evs, keys[i]).Some? {
      TellsIsBacked(evs, keys[i]);
    }
    BackedInputs(evs, o.rule, inputs);
    SameInputsSameTrade(o.coercion, o.rule, inputs, Read(evs, keys));
  }

  lemma ToldPasses(o: Options, evs: seq<Evidence>, intent: Intent)
    requires forall i :: 0 <= i < |o.rule.requires_| ==> Tells(evs, o.rule.requires_[i]).Some?
    ensures Decide(Submission(o.rule.id, Read(evs, o.rule.requires_), evs, intent), o) == Verified
       <==> Evaluate(o.coercion, o.rule, Read(evs, o.rule.requires_)).Some?
            && SameIntent(Evaluate(o.coercion, o.rule, Read(evs, o.rule.requires_)).value, intent)
  {
    hide Evaluate, SameIntent, Tells, Backs;
    var keys := o.rule.requires_;
    forall i | 0 <= i < |keys| ensures Backs(evs, keys[i], In(Read(evs, keys), keys[i])) {
      TellsIsBacked(evs, keys[i]);
    }
  }

  /** So two submissions of the same evidence that pass make the same trade, whatever inputs they
      claim and whenever they come. */
  lemma EvidenceDeterminesTrade(m: map<Value, int>, m': map<Value, int>, o: Options, a: Submission, b: Submission,
                                clock: seq<int>, clock': seq<int>)
    requires |clock| == |a.evidence| && |clock'| == |b.evidence| && a.evidence == b.evidence
    requires Covered(o.rule) && forall i :: 0 <= i < |o.rule.requires_| ==>
      SingleValued(a.evidence, o.rule.requires_[i])
    requires Gate(m, a, o, clock) == Verified && Gate(m', b, o, clock') == Verified
    ensures SameIntent(a.intent, b.intent)
  {
    hide Evaluate, Looks, SingleValued;
    TradeIsRuleOnEvidence(o, a.evidence, a.intent);
    TradeIsRuleOnEvidence(o, b.evidence, b.intent);
    assert Decide(Submission(o.rule.id, a.inputs, a.evidence, a.intent), o) == Verified by { DecideIgnoresId(a, o); }
    assert Decide(Submission(o.rule.id, b.inputs, b.evidence, b.intent), o) == Verified by { DecideIgnoresId(b, o); }
  }

  lemma DecideIgnoresId(vi: Submission, o: Options)
    ensures Decide(Submission(o.rule.id, vi.inputs, vi.evidence, vi.intent), o) == Decide(vi, o)
  {
  }

  predicate Agree(a: Option<Value>, b: Option<Value>) {
    a.Some? && b.Some? ==> a == b
  }

  /** Signed quotes and zkTLS claims give one value to a key when those that mention it agree. */
  lemma QuotesAreSingleValued(evs: seq<Evidence>, key: Text)
    requires forall i :: 0 <= i < |evs| ==> evs[i].Quote? || evs[i].ZkTls?
    ensures SingleValued(evs, key)
       <==> forall i, j :: 0 <= i < |evs| && 0 <= j < |evs| ==> Agree(ItemTells(evs[i], key), ItemTells(evs[j], key))
  {
    forall i, v | 0 <= i < |evs| ensures ItemBacks(evs[i], key, v) <==> ItemTells(evs[i], key) == Some(v) {}
    if SingleValued(evs, key) {
      forall i, j | 0 <= i < |evs| && 0 <= j < |evs| && ItemTells(evs[i], key).Some? && ItemTells(evs[j], key).Some?
        ensures ItemTells(evs[i], key) == ItemTells(evs[j], key)
      {
        assert Backs(evs, key, ItemTells(evs[i], key).value) && Backs(evs, key, ItemTells(evs[j], key).value);
      }
    }
  }

  // ---------------------------------------------------------------------------------------------
  // What the gate lets through, told from the rule, the inputs and the evidence
  // ---------------------------------------------------------------------------------------------

  /** A value of one input meets a condition: the order is that of numbers, and nothing but numbers is in
      it; NaN is equal to nothing. */
  lemma ConditionMeans(c: Condition, inputs: map<Text, Value>)
    ensures var v, w := if c.input in inputs then inputs[c.input] else Undef, c.value; var numbers := v.Num? && w.Num?;
      && (c.op == Eq ==> (Holds(c, inputs) <==> v == w && v != NaN))
      && (c.op == Ne ==> (Holds(c, inputs) <==> v != w || v == NaN))
      && (c.op == Lt ==> (Holds(c, inputs) <==> numbers && v.n < w.n))
      && (c.op == Le ==> (Holds(c, inputs) <==> numbers && v.n <= w.n))
      && (c.op == Gt ==> (Holds(c, inputs) <==> numbers && w.n < v.n))
      && (c.op == Ge ==> (Holds(c, inputs) <==> numbers && w.n <= v.n))
      && (c.op == OtherOp ==> !Holds(c, inputs))
  {
  }

  /** The trade of a rule: there is one if all conditions hold; its token is the rule's own, else the text
      of the named input, else none, and its size likewise, as a number. */
  lemma TradeMeans(c: Coercion, rule: Rule, inputs: map<Text, Value>)
    ensures Evaluate(c, rule, inputs).Some? <==> forall i :: 0 <= i < |rule.when_| ==> Holds(rule.when_[i], inputs)
    ensures Evaluate(c, rule, inputs).Some? ==>
      var x, t := Evaluate(c, rule, inputs).value, rule.then_; var own, sized := Given(t.token), Given(t.sizeSol);
      && x.kind == t.kind
      && (own ==> x.token == t.token)
      && (!own && t.tokenInput.Some? ==> x.token == Str(ToText(c, In(inputs, t.tokenInput.value))))
      && (!own && t.tokenInput.None? ==> !Given(x.token))
      && (sized ==> x.sizeSol == t.sizeSol)
      && (!sized && t.sizeInput.Some? ==> x.sizeSol == ToNumber(c, In(inputs, t.sizeInput.value)))
      && (!sized && t.sizeInput.None? ==> !Given(x.sizeSol))
  {
  }

  /** What is a number to the rule: numbers, null as 0, true and false as 1 and 0, and what `Number` reads
      in texts and objects. The truth values keep their names as texts. */
  lemma CoercionMeans(c: Coercion, v: Value, n: int)
    ensures ToNumber(c, v) == Num(n) <==>
      || v == Num(n)
      || (n == 0 && (v == Null || v == Bool(false))) || (n == 1 && v == Bool(true))
      || ((v.Str? || v.Ref?) && c.number(v) == Num(n))
    ensures ToNumber(c, v).Num? || ToNumber(c, v).NaN?
    ensures v.Str? ==> ToText(c, v) == v.s
    ensures v == Bool(true) ==> ToText(c, v) == [116, 114, 117, 101]
    ensures v == Bool(false) ==> ToText(c, v) == [102, 97, 108, 115, 101]
  {
  }

  /** Neither undefined nor null. */
  predicate Given(v: Value) {
    v != Undef && v != Null
  }

  /** Two intents are the same trade: nothing given and null count as one, NaN as nothing. */
  lemma SameTradeMeans(a: Intent, b: Intent)
    ensures SameIntent(a, b) <==>
      && a.kind == b.kind && a.kind != NaN
      && (if Given(a.token) then a.token == b.token && a.token != NaN else !Given(b.token))
      && (if Given(a.sizeSol) then a.sizeSol == b.sizeSol && a.sizeSol != NaN else !Given(b.sizeSol))
  {
  }

  /** A submission passes exactly if it names the committed rule, all its evidence passes, some item tells
      each required input the value claimed for it, and the rule, on the claimed inputs, makes the trade. */
  lemma GateIff(m: map<Value, int>, vi: Submission, o: Options, clock: seq<int>)
    requires |clock| == |vi.evidence|
    ensures Gate(m, vi, o, clock) == Verified <==>
      && vi.rule == o.rule.id && vi.rule != NaN
      && JudgeAll(m, vi.evidence, o, clock).0 == Verified
      && (forall i :: 0 <= i < |o.rule.requires_| ==> Told(vi, o.rule.requires_[i]))
      && Evaluate(o.coercion, o.rule, vi.inputs).Some?
      && SameIntent(Evaluate(o.coercion, o.rule, vi.inputs).value, vi.intent)
  {
    hide JudgeAll, Evaluate, SameIntent, Backs, Told;
    forall i | 0 <= i < |o.rule.requires_|
      ensures Told(vi, o.rule.requires_[i])
         <==> Backs(vi.evidence, o.rule.requires_[i], In(vi.inputs, o.rule.requires_[i]))
    {
      ToldIsBacked(vi, o.rule.requires_[i]);
    }
  }

  /** Some item of the evidence says of this input what the submission says. */
  ghost predicate Told(vi: Submission, key: Text) {
    exists j :: 0 <= j < |vi.evidence| && ItemTells(vi.evidence[j], key) == Some(In(vi.inputs, key))
  }

  lemma ToldIsBacked(vi: Submission, key: Text)
    ensures Told(vi, key) <==> Backs(vi.evidence, key, In(vi.inputs, key))
  {
    var v := In(vi.inputs, key);
    forall j | 0 <= j < |vi.evidence|
      ensures ItemBacks(vi.evidence[j], key, v) <==> ItemTells(vi.evidence[j], key) == Some(v)
    {
    }
  }
}
