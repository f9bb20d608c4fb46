/** lib/proto.js: which node may host which agent, and the owner's trading limits. */
module Proto {
  import opened Bytes

  /** The isolation a bundle asks for; absent strings are empty. */
  datatype Bundle = Bundle(runtime: string, manifestRuntime: string)

  datatype Spec = Spec(bundle: Option<Bundle>, requireSandbox: string)

  const NODE_TIER: nat := 1
  const OCI_TIER: nat := 2

  /** How strong a sandbox is, by its name; a name that means nothing is no sandbox. */
  function Tier(sandbox: string): nat {
    if sandbox == "node" then 1
    else if sandbox == "oci" then 2
    else if sandbox == "microvm" then 3
    else 0
  }

  /** The names every JavaScript object inherits. */
  const INHERITED: set<string> := {
    "constructor", "hasOwnProperty", "isPrototypeOf", "propertyIsEnumerable", "toLocaleString", "toString", "valueOf",
    "__proto__", "__defineGetter__", "__defineSetter__", "__lookupGetter__", "__lookupSetter__"
  }

  /** `SANDBOX_RANK[x] ?? 0`: an inherited name finds something that is no number, and compares as NaN. */
  function Rank(sandbox: string): Option<nat> {
    if sandbox in INHERITED then None else Some(Tier(sandbox))
  }

  predicate IsOci(b: Bundle) {
    (if b.runtime != "" then b.runtime else b.manifestRuntime) == "oci"
  }

  /** What the bundle's runtime needs at the least. */
  function Floor(b: Bundle): nat {
    if IsOci(b) then OCI_TIER else NODE_TIER
  }

  function Max(a: int, b: int): int { if a >= b then a else b }

  /** `nodeSatisfies`. */
  predicate Satisfies(sandbox: string, trusted: bool, spec: Spec) {
    match spec.bundle
    case None => true
    case Some(b) =>
      var wish, have := Rank(spec.requireSandbox), Rank(sandbox);
      if wish.Some? && have.Some? && have.value < Max(Floor(b), wish.value) then false
      else if IsOci(b) && !trusted then false
      else true
  }

  /** The rule as the design states it: a bundle needs its runtime's floor and the owner's wish, and
      untrusted code an attested node. */
  predicate Contains(sandbox: string, trusted: bool, spec: Spec) {
    spec.bundle.Some? ==>
      && Tier(sandbox) >= Floor(spec.bundle.value)
      && Tier(sandbox) >= Tier(spec.requireSandbox)
      && (IsOci(spec.bundle.value) ==> trusted)
  }

  /** The code decides by that rule, for attested nodes and others, exactly if the node's sandbox is no
      inherited name, and the owner's wish is none either unless the floor is met anyway. */
  lemma SatisfiesIff(sandbox: string, spec: Spec)
    ensures (forall trusted :: Satisfies(sandbox, trusted, spec) <==> Contains(sandbox, trusted, spec))
       <==> (spec.bundle.None?
             || (sandbox !in INHERITED
                 && (spec.requireSandbox in INHERITED ==> Tier(sandbox) >= Floor(spec.bundle.value))))
  {
    InheritedHasNoTier(sandbox);
    InheritedHasNoTier(spec.requireSandbox);
    var inherited := sandbox in INHERITED || spec.requireSandbox in INHERITED;
    if spec.bundle.Some? && inherited && Tier(sandbox) < Floor(spec.bundle.value) {
      assert Satisfies(sandbox, true, spec) && !Contains(sandbox, true, spec);
    }
  }

  lemma InheritedHasNoTier(sandbox: string)
    ensures sandbox in INHERITED ==> Tier(sandbox) == 0
  {
  }

  /** An input that shows it: a node whose sandbox goes by "constructor" is given a bundle that wants
      a microVM, though its sandbox is none. */
  lemma InheritedNamePasses()
    ensures var spec := Spec(Some(Bundle("node", "")), "microvm");
      Satisfies("constructor", false, spec) && !Contains("constructor", false, spec)
  {
    assert "constructor" in INHERITED;
    assert Tier("constructor") == 0;
  }

  // ---------------------------------------------------------------------------------------------
  // The owner's trading limits, in lamports
  // ---------------------------------------------------------------------------------------------

  datatype Kind = Buy | Sell

  datatype Policy = Policy(maxNotional: int, maxDaily: int, cooldownMs: int, allow: set<Kind>, denyTokens: set<string>,
                           allowTokens: Option<set<string>>, paper: bool, requireVerified: bool)

  /** What the owner sends: a missing field takes its default, a field that is not a number counts as
      zero (`Some(None)`). */
  datatype RawPolicy = RawPolicy(maxNotional: Option<Option<int>>, maxDaily: Option<Option<int>>,
                                 cooldownMs: Option<Option<int>>,
                                 allow: Option<set<Kind>>, denyTokens: Option<set<string>>,
                                 allowTokens: Option<set<string>>,
                                 paper: Option<bool>, requireVerified: Option<bool>)

  function NumberOr(x: Option<Option<int>>, default: int): int {
    match x
    case None => default
    case Some(None) => 0
    case Some(Some(n)) => n
  }

  /** `normalizePolicy`, with its defaults of 0.05 and 0.5 SOL. */
  function NormalizePolicy(p: RawPolicy): Policy {
    var maxNotional := Max(0, NumberOr(p.maxNotional, 50_000_000));
    Policy(maxNotional, Max(maxNotional, NumberOr(p.maxDaily, 500_000_000)), Max(0, NumberOr(p.cooldownMs, 30_000)),
           if p.allow.Some? then p.allow.value else {Buy, Sell},
           if p.denyTokens.Some? then p.denyTokens.value else {},
           p.allowTokens, p.paper != Some(false), p.requireVerified == Some(true))
  }

  predicate ValidPolicy(p: Policy) {
    0 <= p.maxNotional <= p.maxDaily && 0 <= p.cooldownMs
  }

  function Raw(p: Policy): RawPolicy {
    RawPolicy(Some(Some(p.maxNotional)), Some(Some(p.maxDaily)), Some(Some(p.cooldownMs)),
              Some(p.allow), Some(p.denyTokens),
              p.allowTokens, Some(p.paper), Some(p.requireVerified))
  }

  /** Normalizing yields a usable policy and leaves one that already is as it stands, so sending a
      stored policy on (control plane to signer) does not change it. */
  lemma NormalizeIsIdempotent(p: RawPolicy, q: Policy)
    ensures ValidPolicy(NormalizePolicy(p))
    ensures ValidPolicy(q) <==> NormalizePolicy(Raw(q)) == q
  {
  }
}
