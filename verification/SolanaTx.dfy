/** signer/submit.js: finding the agent among a transaction's account keys, the inspection before
    signing, and the signature written into its slot. Transactions are the decoded bytes; base64 is
    left out. */
module SolanaTx {
  import opened Bytes
  import opened Arith
  import opened Bits
  import opened ShortVec
  import Base58

  // ---------------------------------------------------------------------------------------------
  // What the code does on any byte string
  // ---------------------------------------------------------------------------------------------

  /** Where `subarray(k)` starts: negative positions count from the end, all are clamped. */
  function Clamp(len: nat, k: int): nat {
    if k > len then len else if k >= 0 then k else if len + k >= 0 then len + k else 0
  }

  function MessageStart(raw: seq<Byte>): (r: nat)
    ensures r <= |raw|
  {
    var (sigCount, sigStart) := Read(raw, 0);
    Clamp(|raw|, sigStart + sigCount * 64)
  }

  function Message(raw: seq<Byte>): seq<Byte> {
    raw[MessageStart(raw)..]
  }

  /** `m.subarray(p, p + 32)`, cut short at the end of the message. */
  function KeyAt(m: seq<Byte>, p: nat): seq<Byte> {
    m[Clamp(|m|, p)..Clamp(|m|, p + 32)]
  }

  function KeysAt(m: seq<Byte>, p: nat, n: int): (r: seq<seq<Byte>>)
    ensures |r| == if n < 0 then 0 else n
    decreases n
  {
    if n <= 0 then [] else [KeyAt(m, p)] + KeysAt(m, p + 32, n - 1)
  }

  datatype Head = Head(numReqSig: Option<Byte>, keys: seq<seq<Byte>>, next: nat)

  /** Version byte, header and static keys, as both functions of the source read them. */
  function ParseHead(m: seq<Byte>): Head {
    var p := if ByteOrZero(m, 0) >= 128 then 1 else 0;
    var (keyCount, pk) := Read(m, p + 3);
    var keys := KeysAt(m, pk, keyCount);
    Head(At(m, p), keys, pk + 32 * |keys|)
  }

  function FirstIndex<T(==)>(s: seq<T>, x: T): (i: int)
    ensures i == -1 ==> x !in s
    ensures i != -1 ==> 0 <= i < |s| && s[i] == x && x !in s[..i]
  {
    if s == [] then -1
    else if s[0] == x then 0
    else
      var i := FirstIndex(s[1..], x);
      assert i >= 0 ==> s[..i + 1] == [s[0]] + s[1..][..i];
      if i < 0 then -1 else i + 1
  }

  function LastIndex<T(==)>(s: seq<T>, x: T): (i: int)
    ensures i == -1 ==> x !in s
    ensures i != -1 ==> 0 <= i < |s| && s[i] == x && x !in s[i + 1..]
  {
    if s == [] then -1
    else if s[|s| - 1] == x then |s| - 1
    else
      var i := LastIndex(s[..|s| - 1], x);
      assert s == s[..|s| - 1] + [s[|s| - 1]];
      assert i >= 0 ==> s[i + 1..] == s[..|s| - 1][i + 1..] + [s[|s| - 1]];
      i
  }

  lemma LastIndexPush<T>(s: seq<T>, x: T, y: T)
    ensures LastIndex(s + [x], y) == if x == y then |s| else LastIndex(s, y)
  {
    assert (s + [x])[..|s|] == s;
  }

  /** `findSignerIndex`: the loop keeps the last key that equals the agent's. */
  method FindSignerIndex(m: seq<Byte>, pubkey: seq<Byte>) returns (idx: int, numReqSig: Option<Byte>)
    ensures idx == LastIndex(ParseHead(m).keys, pubkey)
    ensures numReqSig == ParseHead(m).numReqSig
  {
    hide Read, KeyAt, LastIndex;
    var p := if ByteOrZero(m, 0) >= 128 then 1 else 0;
    numReqSig := At(m, p);
    var keyCount, p2 := ReadCompactU16(m, p + 3);
    ghost var keys := ParseHead(m).keys;
    p := p2;
    idx := -1;
    assert LastIndex([], pubkey) == -1;
    var i := 0;
    while i < keyCount
      invariant 0 <= i <= |keys| && p == p2 + 32 * i
      invariant keys[i..] == KeysAt(m, p, keyCount - i)
      invariant idx == LastIndex(keys[..i], pubkey)
      decreases keyCount - i
    {
      assert keys[i] == keys[i..][0] == KeyAt(m, p);
      assert keys[i + 1..] == keys[i..][1..];
      LastIndexPush(keys[..i], keys[i], pubkey);
      assert keys[..i + 1] == keys[..i] + [keys[i]];
      if KeyAt(m, p) == pubkey { idx := i; }
      p := p + 32;
      i := i + 1;
    }
    assert keys[..|keys|] == keys;
  }

  function Addresses(keys: seq<seq<Byte>>): (r: seq<string>)
    ensures |r| == |keys| && forall i :: 0 <= i < |keys| ==> r[i] == Base58.Encode(keys[i])
  {
    seq(|keys|, i requires 0 <= i < |keys| => Base58.Encode(keys[i]))
  }

  datatype Rejection = NotRequiredSigner | Malformed | ProgramNotAllowed(program: string)

  /** `unresolved` holds what `m[p]` gave for each instruction whose program is not a static key:
      a byte, or undefined. */
  datatype Report = Report(unresolved: seq<Option<Byte>>, feePayer: string, signerIndex: nat)

  /** The offset after the instruction at `p`: account indices and data are skipped by their
      lengths, which are signed numbers. */
  function NextInstruction(m: seq<Byte>, p: int): int {
    var (accLen, pa) := Read(m, p + 1);
    var (dataLen, pd) := Read(m, pa + accLen);
    pd + dataLen
  }

  function Walk(m: seq<Byte>, p: int, n: int, addrs: seq<string>, allowed: set<string>,
                unresolved: seq<Option<Byte>>): Result<seq<Option<Byte>>, Rejection>
    decreases n
  {
    if n <= 0 then Ok(unresolved)
    else
      var program := At(m, p);
      var next := NextInstruction(m, p);
      if next > |m| then Err(Malformed)
      else if program.Some? && program.value < |addrs| then
        if addrs[program.value] in allowed then Walk(m, next, n - 1, addrs, allowed, unresolved)
        else Err(ProgramNotAllowed(addrs[program.value]))
      else Walk(m, next, n - 1, addrs, allowed, unresolved + [program])
  }

  predicate RequiredSigner(idx: int, numReqSig: Option<Byte>) {
    idx >= 0 && (numReqSig.Some? ==> idx < numReqSig.value)
  }

  function InspectMessage(m: seq<Byte>, pubkey: seq<Byte>, allowed: set<string>): Result<Report, Rejection> {
    var h := ParseHead(m);
    var addrs := Addresses(h.keys);
    var idx := FirstIndex(addrs, Base58.Encode(pubkey));
    if !RequiredSigner(idx, h.numReqSig) then Err(NotRequiredSigner)
    else
      var (ixCount, p) := Read(m, h.next + 32);
      match Walk(m, p, ixCount, addrs, allowed, [])
      case Ok(unresolved) => Ok(Report(unresolved, addrs[0], idx))
      case Err(e) => Err(e)
  }

  function Inspect(raw: seq<Byte>, pubkey: seq<Byte>, allowed: set<string>): Result<Report, Rejection> {
    InspectMessage(Message(raw), pubkey, allowed)
  }

  /** The key loop of the inspection. */
  method ReadAddresses(m: seq<Byte>, start: nat, keyCount: int) returns (staticKeys: seq<string>)
    ensures staticKeys == Addresses(KeysAt(m, start, keyCount))
  {
    hide Base58.Encode;
    ghost var keys := KeysAt(m, start, keyCount);
    staticKeys := [];
    var p := start;
    var i := 0;
    while i < keyCount
      invariant 0 <= i <= |keys| && p == start + 32 * i
      invariant keys[i..] == KeysAt(m, p, keyCount - i)
      invariant staticKeys == Addresses(keys[..i])
      decreases keyCount - i
    {
      assert keys[i] == keys[i..][0] == KeyAt(m, p);
      assert keys[i + 1..] == keys[i..][1..];
      var address := Base58.EncodeLoop(KeyAt(m, p));
      staticKeys := staticKeys + [address];
      p := p + 32;
      i := i + 1;
    }
    assert keys[..i] == keys;
  }

  /** `inspectTransaction`. */
  method InspectTransaction(raw: seq<Byte>, pubkey: seq<Byte>, allowed: set<string>)
    returns (r: Result<Report, Rejection>)
    ensures r == Inspect(raw, pubkey, allowed)
  {
    hide Read, Walk, KeysAt, Base58.Encode, FirstIndex, Addresses;
    var sigCount, sigStart := ReadCompactU16(raw, 0);
    var m := raw[Clamp(|raw|, sigStart + sigCount * 64)..];
    var p: int := if ByteOrZero(m, 0) >= 128 then 1 else 0;
    var numReqSig := At(m, p);
    p := p + 3;
    var keyCount, pk := ReadCompactU16(m, p);
    var staticKeys := ReadAddresses(m, pk, keyCount);
    p := pk + 32 * |staticKeys|;
    var mine := Base58.EncodeLoop(pubkey);
    var myIdx := FirstIndex(staticKeys, mine);
    if !RequiredSigner(myIdx, numReqSig) { return Err(NotRequiredSigner); }
    p := p + 32;
    var ixCount, pi := ReadCompactU16(m, p);
    var walked := WalkLoop(m, pi, ixCount, staticKeys, allowed);
    match walked
    case Ok(unresolved) => r := Ok(Report(unresolved, staticKeys[0], myIdx));
    case Err(e) => r := Err(e);
  }

  method WalkLoop(m: seq<Byte>, start: int, ixCount: int, staticKeys: seq<string>, allowed: set<string>)
    returns (r: Result<seq<Option<Byte>>, Rejection>)
    ensures r == Walk(m, start, ixCount, staticKeys, allowed, [])
  {
    hide Read;
    var p := start;
    var unresolved: seq<Option<Byte>> := [];
    var i := 0;
    while i < ixCount
      invariant 0 <= i && (i <= ixCount || i == 0)
      invariant Walk(m, start, ixCount, staticKeys, allowed, []) ==
        Walk(m, p, ixCount - i, staticKeys, allowed, unresolved)
      decreases ixCount - i
    {
      var program := At(m, p);
      p := p + 1;
      var accLen, pa := ReadCompactU16(m, p);
      p := pa + accLen;
      var dataLen, pd := ReadCompactU16(m, p);
      p := pd + dataLen;
      if p > |m| { return Err(Malformed); }
      if program.Some? && program.value < |staticKeys| {
        var prog := staticKeys[program.value];
        if prog !in allowed { return Err(ProgramNotAllowed(prog)); }
      } else {
        unresolved := unresolved + [program];
      }
      i := i + 1;
    }
    r := Ok(unresolved);
  }

  // ---------------------------------------------------------------------------------------------
  // Well-formed messages: the format written down as a serializer
  // ---------------------------------------------------------------------------------------------

  datatype Instruction = Instruction(program: Byte, accounts: seq<Byte>, data: seq<Byte>)

  /** `lookups` are the bytes after the instructions: the address-table section of a v0 message. */
  datatype TxMessage = TxMessage(
    v0: bool, numReqSig: Byte, roSigned: Byte, roUnsigned: Byte, keys: seq<seq<Byte>>,
    blockhash: seq<Byte>, instructions: seq<Instruction>, lookups: seq<Byte>)
  {
    ghost predicate Valid() {
      && (v0 || numReqSig < 128)
      && (forall k :: k in keys ==> |k| == 32)
      && |blockhash| == 32
      && |keys| < TWO31 && |instructions| < TWO31
      && (forall ix :: ix in instructions ==> |ix.accounts| < TWO31 && |ix.data| < TWO31)
    }

    function HeadBytes(): seq<Byte> {
      (if v0 then [0x80] else []) + [numReqSig, roSigned, roUnsigned]
    }

    function Bytes(): seq<Byte> {
      HeadBytes() + (Compact(|keys|) + (Flatten(keys)
        + (blockhash + (Compact(|instructions|) + (InstructionBytes(instructions) + lookups)))))
    }
  }

  function Flatten(ks: seq<seq<Byte>>): seq<Byte> {
    if ks == [] then [] else ks[0] + Flatten(ks[1..])
  }

  function OneInstruction(ix: Instruction): seq<Byte> {
    [ix.program] + (Compact(|ix.accounts|) + (ix.accounts + (Compact(|ix.data|) + ix.data)))
  }

  function InstructionBytes(ixs: seq<Instruction>): seq<Byte> {
    if ixs == [] then [] else OneInstruction(ixs[0]) + InstructionBytes(ixs[1..])
  }

  /** A transaction: the array of 64-byte signatures, then the message. */
  function TxBytes(sigs: seq<seq<Byte>>, m: seq<Byte>): seq<Byte> {
    Compact(|sigs|) + (Flatten(sigs) + m)
  }

  // What the inspection should say, in terms of the message alone.

  function Unresolved(ixs: seq<Instruction>, keyCount: nat): seq<Option<Byte>> {
    if ixs == [] then []
    else (if ixs[0].program < keyCount then [] else [Some(ixs[0].program)]) + Unresolved(ixs[1..], keyCount)
  }

  predicate Permitted(ix: Instruction, keys: seq<seq<Byte>>, allowed: set<string>) {
    ix.program < |keys| ==> Base58.Encode(keys[ix.program]) in allowed
  }

  function FirstForbidden(ixs: seq<Instruction>, keys: seq<seq<Byte>>, allowed: set<string>): (r: Option<Instruction>)
    ensures r.None? <==> forall ix :: ix in ixs ==> Permitted(ix, keys, allowed)
    ensures r.Some? ==> r.value in ixs && !Permitted(r.value, keys, allowed)
  {
    if ixs == [] then None
    else if !Permitted(ixs[0], keys, allowed) then Some(ixs[0])
    else
      assert ixs == [ixs[0]] + ixs[1..];
      FirstForbidden(ixs[1..], keys, allowed)
  }

  ghost function Verdict(msg: TxMessage, pubkey: seq<Byte>, allowed: set<string>): Result<Report, Rejection> {
    var i := FirstIndex(msg.keys, pubkey);
    var bad := FirstForbidden(msg.instructions, msg.keys, allowed);
    if i < 0 || i >= msg.numReqSig then Err(NotRequiredSigner)
    else if bad.Some? then Err(ProgramNotAllowed(Base58.Encode(msg.keys[bad.value.program])))
    else Ok(Report(Unresolved(msg.instructions, |msg.keys|), Base58.Encode(msg.keys[0]), i))
  }

  // ---------------------------------------------------------------------------------------------
  // Proofs
  // ---------------------------------------------------------------------------------------------

  /** The rest of a buffer after a piece that stands at offset o. */
  lemma Skip(buf: seq<Byte>, o: nat, piece: seq<Byte>, rest: seq<Byte>)
    requires o <= |buf| && buf[o..] == piece + rest
    ensures o + |piece| <= |buf| && buf[o + |piece|..] == rest
    ensures buf[o..o + |piece|] == piece
  {
    assert |buf[o..]| == |piece| + |rest|;
    assert buf[o + |piece|..] == buf[o..][|piece|..];
    assert buf[o..o + |piece|] == buf[o..][..|piece|];
  }

  /** Comparing addresses finds the key that comparing bytes finds. */
  lemma {:induction false} AddressIndex(keys: seq<seq<Byte>>, k: seq<Byte>)
    ensures FirstIndex(Addresses(keys), Base58.Encode(k)) == FirstIndex(keys, k)
  {
    if keys != [] {
      Base58.EncodeInjective(keys[0], k);
      assert Addresses(keys)[1..] == Addresses(keys[1..]);
      AddressIndex(keys[1..], k);
    }
  }

  lemma {:induction false} KeysOfBytes(m: seq<Byte>, p: nat, keys: seq<seq<Byte>>, rest: seq<Byte>)
    requires p <= |m| && m[p..] == Flatten(keys) + rest
    requires forall k :: k in keys ==> |k| == 32
    ensures KeysAt(m, p, |keys|) == keys
    ensures p + 32 * |keys| <= |m| && m[p + 32 * |keys|..] == rest
    decreases keys
  {
    if keys != [] {
      assert m[p..] == keys[0] + (Flatten(keys[1..]) + rest);
      assert |keys[0]| == 32;
      Skip(m, p, keys[0], Flatten(keys[1..]) + rest);
      KeysOfBytes(m, p + 32, keys[1..], rest);
      assert keys == [keys[0]] + keys[1..];
    }
  }

  /** Head of a message whose first parts are as serialized, whatever follows the keys. */
  lemma HeadOfBytes(m: seq<Byte>, msg: TxMessage, rest: seq<Byte>)
    requires msg.Valid()
    requires m == msg.HeadBytes() + (Compact(|msg.keys|) + (Flatten(msg.keys) + rest))
    ensures var h := ParseHead(m);
      h.numReqSig == Some(msg.numReqSig) && h.keys == msg.keys && h.next <= |m| && m[h.next..] == rest
  {
    hide Read, Compact, Flatten, KeysAt;
    var head := msg.HeadBytes();
    var tail := Flatten(msg.keys) + rest;
    var p := if msg.v0 then 1 else 0;
    assert |head| == p + 3 && head[p] == msg.numReqSig && (head[0] >= 128 <==> msg.v0);
    Prefix(m, head, Compact(|msg.keys|) + tail);
    ReadCompact(m, p + 3, |msg.keys|, tail);
    KeysOfBytes(m, p + 3 + |Compact(|msg.keys|)|, msg.keys, rest);
  }

  lemma Prefix(m: seq<Byte>, a: seq<Byte>, b: seq<Byte>)
    requires m == a + b
    ensures m[|a|..] == b && forall i :: 0 <= i < |a| ==> m[i] == a[i]
  {
  }

  lemma InstructionParts(ix: Instruction, c: seq<Byte>, d: seq<Byte>, rest: seq<Byte>)
    requires c == Compact(|ix.accounts|) && d == Compact(|ix.data|)
    ensures OneInstruction(ix) + rest == [ix.program] + (c + (ix.accounts + (d + (ix.data + rest))))
  {
    Assoc(d, ix.data, rest);
    Assoc(ix.accounts, d + ix.data, rest);
    Assoc(c, ix.accounts + (d + ix.data), rest);
    Assoc([ix.program], c + (ix.accounts + (d + ix.data)), rest);
  }

  lemma StepOfBytes(m: seq<Byte>, p: nat, ix: Instruction, rest: seq<Byte>)
    requires p <= |m| && m[p..] == OneInstruction(ix) + rest
    requires |ix.accounts| < TWO31 && |ix.data| < TWO31
    ensures At(m, p) == Some(ix.program)
    ensures 0 <= NextInstruction(m, p) <= |m| && m[NextInstruction(m, p)..] == rest
  {
    hide Read, Compact;
    var c, d := Compact(|ix.accounts|), Compact(|ix.data|);
    InstructionParts(ix, c, d, rest);
    Skip(m, p, [ix.program], c + (ix.accounts + (d + (ix.data + rest))));
    assert m[p] == m[p..p + 1][0];
    FieldOfBytes(m, p + 1, ix.accounts, d + (ix.data + rest));
    FieldOfBytes(m, p + 1 + |c| + |ix.accounts|, ix.data, rest);
  }

  /** A length-prefixed field. */
  lemma FieldOfBytes(m: seq<Byte>, o: nat, field: seq<Byte>, rest: seq<Byte>)
    requires o <= |m| && m[o..] == Compact(|field|) + (field + rest) && |field| < TWO31
    ensures Read(m, o) == (|field|, o + |Compact(|field|)|)
    ensures o + |Compact(|field|)| + |field| <= |m|
    ensures m[o + |Compact(|field|)|..o + |Compact(|field|)| + |field|] == field
    ensures m[o + |Compact(|field|)| + |field|..] == rest
  {
    hide Read, Compact;
    ReadCompact(m, o, |field|, field + rest);
    Skip(m, o + |Compact(|field|)|, field, rest);
  }

  lemma {:induction false} WalkOfBytes(m: seq<Byte>, p: nat, ixs: seq<Instruction>, rest: seq<Byte>,
                                       keys: seq<seq<Byte>>, allowed: set<string>, acc: seq<Option<Byte>>)
    requires p <= |m| && m[p..] == InstructionBytes(ixs) + rest
    requires forall ix :: ix in ixs ==> |ix.accounts| < TWO31 && |ix.data| < TWO31
    decreases ixs
    ensures Walk(m, p, |ixs|, Addresses(keys), allowed, acc)
      == match FirstForbidden(ixs, keys, allowed)
         case Some(ix) => Err(ProgramNotAllowed(Base58.Encode(keys[ix.program])))
         case None => Ok(acc + Unresolved(ixs, |keys|))
  {
    hide Read, NextInstruction, OneInstruction, Base58.Encode;
    if ixs != [] {
      var ix := ixs[0];
      var more := InstructionBytes(ixs[1..]) + rest;
      Assoc(OneInstruction(ix), InstructionBytes(ixs[1..]), rest);
      StepOfBytes(m, p, ix, more);
      var acc' := if ix.program < |keys| then acc else acc + [Some(ix.program)];
      if Permitted(ix, keys, allowed) {
        WalkOfBytes(m, NextInstruction(m, p), ixs[1..], rest, keys, allowed, acc');
        assert [ix] + ixs[1..] == ixs;
        AccPush(acc, ix, ixs[1..], |keys|);
      }
    } else {
      assert acc + [] == acc;
    }
  }

  lemma AccPush(acc: seq<Option<Byte>>, ix: Instruction, ixs: seq<Instruction>, n: nat)
    ensures acc + Unresolved([ix] + ixs, n)
      == (if ix.program < n then acc else acc + [Some(ix.program)]) + Unresolved(ixs, n)
  {
    assert ([ix] + ixs)[1..] == ixs;
  }

  lemma OneMore(n: nat, k: nat)
    ensures n * (1 + k) == n + n * k
  {
  }

  lemma {:induction false} FlattenLength(sigs: seq<seq<Byte>>, n: nat)
    requires forall s :: s in sigs ==> |s| == n
    ensures |Flatten(sigs)| == n * |sigs|
  {
    if sigs != [] {
      FlattenLength(sigs[1..], n);
      assert sigs[0] in sigs;
      OneMore(n, |sigs[1..]|);
    }
  }

  /** The message is found behind any signature array. */
  lemma MessageOfTx(sigs: seq<seq<Byte>>, m: seq<Byte>)
    requires |sigs| < TWO31 && forall s :: s in sigs ==> |s| == 64
    ensures var raw := TxBytes(sigs, m);
      && Message(raw) == m
      && Read(raw, 0) == (|sigs|, |Compact(|sigs|)|)
      && MessageStart(raw) == |Compact(|sigs|)| + 64 * |sigs|
  {
    var raw := TxBytes(sigs, m);
    assert raw[0..] == raw;
    ReadCompact(raw, 0, |sigs|, Flatten(sigs) + m);
    FlattenLength(sigs, 64);
    Skip(raw, |Compact(|sigs|)|, Flatten(sigs), m);
  }

  /** Where the instructions of a written message start, and that the walk from there gives the
      verdict on them. */
  lemma InstructionsOfBytes(msg: TxMessage, allowed: set<string>)
    requires msg.Valid()
    ensures var m := msg.Bytes(); var h := ParseHead(m); var (n, start) := Read(m, h.next + 32);
      && h.keys == msg.keys && h.numReqSig == Some(msg.numReqSig)
      && Walk(m, start, n, Addresses(h.keys), allowed, [])
         == match FirstForbidden(msg.instructions, msg.keys, allowed)
            case Some(ix) => Err(ProgramNotAllowed(Base58.Encode(msg.keys[ix.program])))
            case None => Ok(Unresolved(msg.instructions, |msg.keys|))
  {
    hide Read, ParseHead, Compact, Walk, Addresses, FirstForbidden, Base58.Encode, InstructionBytes, Unresolved;
    var m := msg.Bytes();
    var afterCount := InstructionBytes(msg.instructions) + msg.lookups;
    var afterHash := Compact(|msg.instructions|) + afterCount;
    HeadOfBytes(m, msg, msg.blockhash + afterHash);
    var h := ParseHead(m);
    Skip(m, h.next, msg.blockhash, afterHash);
    ReadCompact(m, h.next + 32, |msg.instructions|, afterCount);
    WalkOfBytes(m, Read(m, h.next + 32).1, msg.instructions, msg.lookups, msg.keys, allowed, []);
    assert [] + Unresolved(msg.instructions, |msg.keys|) == Unresolved(msg.instructions, |msg.keys|);
  }

  /** The inspection gives exactly the verdict on the message: for every well-formed legacy or v0
      message, behind any signature array. */
  lemma InspectWellFormed(sigs: seq<seq<Byte>>, msg: TxMessage, pubkey: seq<Byte>, allowed: set<string>)
    requires msg.Valid()
    requires |sigs| < TWO31 && forall s :: s in sigs ==> |s| == 64
    ensures Inspect(TxBytes(sigs, msg.Bytes()), pubkey, allowed) == Verdict(msg, pubkey, allowed)
  {
    hide Read, ParseHead, Walk, FirstIndex, FirstForbidden, Base58.Encode, Unresolved, TxMessage.Bytes, TxBytes,
      Message;
    MessageOfTx(sigs, msg.Bytes());
    InstructionsOfBytes(msg, allowed);
    AddressIndex(msg.keys, pubkey);
  }

  /** Acceptance, spelled out: first static-key index below the signer count and every resolvable
      program on the list; the report lists the out-of-range indices in order. */
  lemma AcceptsIff(sigs: seq<seq<Byte>>, msg: TxMessage, pubkey: seq<Byte>, allowed: set<string>)
    requires msg.Valid()
    requires |sigs| < TWO31 && forall s :: s in sigs ==> |s| == 64
    ensures var r := Inspect(TxBytes(sigs, msg.Bytes()), pubkey, allowed);
      && (r.Ok? <==>
            && (exists i ::
                  0 <= i < |msg.keys| && i < msg.numReqSig && msg.keys[i] == pubkey && pubkey !in msg.keys[..i])
            && (forall ix :: ix in msg.instructions && ix.program < |msg.keys| ==>
              Base58.Encode(msg.keys[ix.program]) in allowed))
      && (r.Ok? ==> r.value.unresolved == Unresolved(msg.instructions, |msg.keys|))
  {
    hide Inspect, TxBytes, TxMessage.Bytes, Unresolved, Base58.Encode, FirstIndex, FirstForbidden;
    InspectWellFormed(sigs, msg, pubkey, allowed);
    var i := FirstIndex(msg.keys, pubkey);
    assert forall ix :: ix in msg.instructions ==> (Permitted(ix, msg.keys, allowed) <==>
      (ix.program < |msg.keys| ==> Base58.Encode(msg.keys[ix.program]) in allowed));
    forall j | 0 <= j < |msg.keys| && msg.keys[j] == pubkey && pubkey !in msg.keys[..j] ensures j == i {
      FirstIndexUnique(msg.keys, pubkey, i, j);
    }
  }

  lemma FirstIndexUnique<T>(s: seq<T>, x: T, i: int, j: nat)
    requires j < |s| && s[j] == x && x !in s[..j]
    requires i == FirstIndex(s, x)
    ensures i == j
  {
    assert x in s;
    forall k | 0 <= k < j ensures s[k] != x { assert s[k] in s[..j]; }
    forall k | 0 <= k < i ensures s[k] != x { assert s[k] in s[..i]; }
  }

  // ---------------------------------------------------------------------------------------------
  // Any byte string: where the judged program indices come from
  // ---------------------------------------------------------------------------------------------

  /** Start offsets of the instructions whose program index is judged: looked up, or reported as
      unresolved. */
  function Judged(m: seq<Byte>, p: int, n: int, addrs: seq<string>, allowed: set<string>): seq<int>
    decreases n
  {
    if n <= 0 || NextInstruction(m, p) > |m| then []
    else if At(m, p).Some? && At(m, p).value < |addrs| && addrs[At(m, p).value] !in allowed then [p]
    else [p] + Judged(m, NextInstruction(m, p), n - 1, addrs, allowed)
  }

  /** A judged instruction never starts at or past the end of the message, so its index was read
      inside the message exactly when the cursor was not negative. */
  lemma {:induction false} JudgedInsideIff(m: seq<Byte>, p: int, n: int, addrs: seq<string>, allowed: set<string>)
    ensures forall o :: o in Judged(m, p, n, addrs, allowed) ==> o < |m| && (At(m, o).Some? <==> o >= 0)
    decreases n
  {
    if n > 0 && NextInstruction(m, p) <= |m| {
      JudgedInsideIff(m, NextInstruction(m, p), n - 1, addrs, allowed);
      StartInside(m, p);
    }
  }

  lemma StartInside(m: seq<Byte>, p: int)
    requires NextInstruction(m, p) <= |m|
    ensures p < |m| && (At(m, p).Some? <==> p >= 0)
  {
    if p >= |m| { PastEnd(m, p); }
  }

  lemma PastEnd(m: seq<Byte>, p: int)
    requires p >= |m|
    ensures NextInstruction(m, p) > |m|
  {
    assert ReadBits(m, p + 1, 0, 0) == (Accumulate(0, 0, 0), p + 2);
    ZeroPrefix(m, p + 1);
    ZeroPrefix(m, p + 2);
  }

  lemma ZeroPrefix(m: seq<Byte>, o: int)
    requires At(m, o).None?
    ensures Read(m, o) == (0, o + 1)
  {
    assert Or(0, 0) == 0;
    assert Accumulate(0, 0, 0) == Or(0, 0);
  }

  /** The report of an accepted walk holds an undefined entry exactly when some instruction was
      judged with a negative cursor: the check the source makes after each instruction bounds the
      cursor from above only. */
  lemma {:induction false} UndefinedReportedIff(m: seq<Byte>, p: int, n: int, addrs: seq<string>, allowed: set<string>,
                                                acc: seq<Option<Byte>>)
    ensures var r := Walk(m, p, n, addrs, allowed, acc);
      r.Ok? ==> (None in r.value <==> None in acc || SomeNegative(Judged(m, p, n, addrs, allowed)))
    decreases n
  {
    hide NextInstruction;
    if n > 0 && NextInstruction(m, p) <= |m| {
      StartInside(m, p);
      var program := At(m, p);
      var js := Judged(m, NextInstruction(m, p), n - 1, addrs, allowed);
      SomeNegativePush(p, js);
      if program.Some? && program.value < |addrs| {
        UndefinedReportedIff(m, NextInstruction(m, p), n - 1, addrs, allowed, acc);
      } else {
        UndefinedReportedIff(m, NextInstruction(m, p), n - 1, addrs, allowed, acc + [program]);
        assert None in acc + [program] <==> None in acc || program == None;
      }
    }
  }

  predicate SomeNegative(os: seq<int>) {
    exists i :: 0 <= i < |os| && os[i] < 0
  }

  lemma SomeNegativePush(p: int, os: seq<int>)
    ensures SomeNegative([p] + os) <==> p < 0 || SomeNegative(os)
  {
    var all := [p] + os;
    if p < 0 {
      assert all[0] < 0;
    } else if SomeNegative(os) {
      var i :| 0 <= i < |os| && os[i] < 0;
      assert all[i + 1] < 0;
    } else {
      assert forall i :: 0 <= i < |all| ==> all[i] == if i == 0 then p else os[i - 1];
    }
  }

  /** Instruction starts that an inspection judges on these bytes: none if the agent is refused before
      the walk. */
  function JudgedIn(raw: seq<Byte>, pubkey: seq<Byte>, allowed: set<string>): seq<int> {
    var m := Message(raw);
    var h := ParseHead(m);
    var (ixCount, p) := Read(m, h.next + 32);
    if !RequiredSigner(FirstIndex(Addresses(h.keys), Base58.Encode(pubkey)), h.numReqSig) then []
    else Judged(m, p, ixCount, Addresses(h.keys), allowed)
  }

  /** The walk goes on after the instruction at p: it does not overrun, and its program is on the list
      or cannot be resolved. */
  predicate GoesOn(m: seq<Byte>, p: int, addrs: seq<string>, allowed: set<string>) {
    NextInstruction(m, p) <= |m| && (At(m, p).Some? && At(m, p).value < |addrs| ==> addrs[At(m, p).value] in allowed)
  }

  /** Some instruction the walk goes on from leaves the cursor below zero, and one more is read from
      there without overrunning: the lower guard the source's check after each instruction lacks. */
  predicate FallsBelow(m: seq<Byte>, p: int, n: int, addrs: seq<string>, allowed: set<string>)
    decreases n
  {
    && n > 1 && GoesOn(m, p, addrs, allowed)
    && (var q := NextInstruction(m, p);
        (q < 0 && NextInstruction(m, q) <= |m|) || FallsBelow(m, q, n - 1, addrs, allowed))
  }

  predicate FallsBelowIn(raw: seq<Byte>, pubkey: seq<Byte>, allowed: set<string>) {
    var m := Message(raw);
    var h := ParseHead(m);
    var (ixCount, p) := Read(m, h.next + 32);
    && RequiredSigner(FirstIndex(Addresses(h.keys), Base58.Encode(pubkey)), h.numReqSig)
    && FallsBelow(m, p, ixCount, Addresses(h.keys), allowed)
  }

  lemma {:induction false} NegativeIffFalls(m: seq<Byte>, p: int, n: int, addrs: seq<string>, allowed: set<string>)
    ensures SomeNegative(Judged(m, p, n, addrs, allowed))
       <==> (p < 0 && n > 0 && NextInstruction(m, p) <= |m|) || FallsBelow(m, p, n, addrs, allowed)
    decreases n
  {
    hide NextInstruction;
    if n > 0 && NextInstruction(m, p) <= |m| {
      if GoesOn(m, p, addrs, allowed) {
        NegativeIffFalls(m, NextInstruction(m, p), n - 1, addrs, allowed);
        SomeNegativePush(p, Judged(m, NextInstruction(m, p), n - 1, addrs, allowed));
      } else {
        assert [p] + [] == [p];
        SomeNegativePush(p, []);
      }
    }
  }

  /** For any bytes at all, accepted or refused: every program index that is judged is a byte of the
      message exactly when the walk never falls below it; and an accepted transaction has an undefined
      entry in its report exactly when it did. */
  lemma AnyBytes(raw: seq<Byte>, pubkey: seq<Byte>, allowed: set<string>)
    ensures forall o :: o in JudgedIn(raw, pubkey, allowed) ==> o < |Message(raw)|
    ensures (forall o :: o in JudgedIn(raw, pubkey, allowed) ==> 0 <= o < |Message(raw)|) <==>
      !FallsBelowIn(raw, pubkey, allowed)
    ensures Inspect(raw, pubkey, allowed).Ok? ==>
      (None in Inspect(raw, pubkey, allowed).value.unresolved <==> FallsBelowIn(raw, pubkey, allowed))
  {
    hide ParseHead, Message, Addresses, Judged, Walk, FirstIndex, FallsBelow, Base58.Encode, RequiredSigner;
    var m := Message(raw);
    var h := ParseHead(m);
    var (ixCount, p) := Read(m, h.next + 32);
    var addrs := Addresses(h.keys);
    var js := Judged(m, p, ixCount, addrs, allowed);
    UndefinedReportedIff(m, p, ixCount, addrs, allowed, []);
    JudgedInsideIff(m, p, ixCount, addrs, allowed);
    NegativeIffFalls(m, p, ixCount, addrs, allowed);
    NegativeMember(js);
    assert p > 0;
    if RequiredSigner(FirstIndex(addrs, Base58.Encode(pubkey)), h.numReqSig) {
      assert JudgedIn(raw, pubkey, allowed) == js;
    } else {
      assert JudgedIn(raw, pubkey, allowed) == [];
    }
  }

  lemma NegativeMember(os: seq<int>)
    ensures SomeNegative(os) <==> exists o :: o in os && o < 0
  {
    if SomeNegative(os) {
      var i :| 0 <= i < |os| && os[i] < 0;
      assert os[i] in os;
    }
  }

  /** Every length prefix the walk reads is a non-negative number. */
  predicate LengthsNonNegative(m: seq<Byte>, p: int, n: int)
    decreases n
  {
    n > 0 ==>
      var (accLen, pa) := Read(m, p + 1);
      accLen >= 0 && Read(m, pa + accLen).0 >= 0 && LengthsNonNegative(m, NextInstruction(m, p), n - 1)
  }

  /** In particular the walk stays inside as long as no length prefix reads as a negative number. */
  lemma {:induction false} JudgedInside(m: seq<Byte>, p: int, n: int, addrs: seq<string>, allowed: set<string>)
    requires p >= 0 && LengthsNonNegative(m, p, n)
    ensures forall o :: o in Judged(m, p, n, addrs, allowed) ==> 0 <= o < |m|
    decreases n
  {
    if n > 0 && NextInstruction(m, p) <= |m| {
      JudgedInside(m, NextInstruction(m, p), n - 1, addrs, allowed);
      StartInside(m, p);
    }
  }

  lemma NegativeLengthWalk(m: seq<Byte>, p: nat, addrs: seq<string>, allowed: set<string>)
    requires p + 6 <= |m| < 0x7000_0000 && m[p..p + 6] == FALLING
    requires addrs != [] && addrs[0] in allowed
    ensures Walk(m, p, 2, addrs, allowed, []) == Ok([None])
  {
    assert m[p] == m[p..p + 6][0] && m[p + 1..p + 6] == m[p..p + 6][1..];
    NegativePrefix(m, p + 1);
    var q := p + 6 - 0x8000_0000;
    ZeroPrefix(m, q);
    assert NextInstruction(m, p) == q + 1;
    ZeroPrefix(m, q + 2);
    ZeroPrefix(m, q + 3);
    assert NextInstruction(m, q + 1) == q + 4;
    assert [] + [At(m, q + 1)] == [None];
    assert Walk(m, q + 1, 1, addrs, allowed, []) == Walk(m, q + 4, 0, addrs, allowed, [None]);
  }

  /** An instruction of program 0 whose account length is written in five bytes and reads as -2^31. */
  const FALLING: seq<Byte> := [0, 0x80, 0x80, 0x80, 0x80, 0x08]

  /** Two keys, two instructions announced, one written: the bytes of a message that falls. */
  function FallingMessage(program: seq<Byte>, agent: seq<Byte>, blockhash: seq<Byte>): seq<Byte> {
    [2, 0, 1] + (Compact(2) + (Flatten([program, agent]) + (blockhash + (Compact(2) + FALLING))))
  }

  /** An input of the inspection that fails: the length sends the cursor to about -2^31, the second
      "instruction" is read there, its index is undefined, and the transaction is accepted. */
  lemma NegativeLengthAccepted(sig: seq<Byte>, program: seq<Byte>, agent: seq<Byte>, blockhash: seq<Byte>,
                               allowed: set<string>)
    requires |sig| == 64 && |program| == |agent| == |blockhash| == 32 && program != agent
    requires Base58.Encode(program) in allowed
    ensures var raw := TxBytes([sig], FallingMessage(program, agent, blockhash));
      && Inspect(raw, agent, allowed) == Ok(Report([None], Base58.Encode(program), 1))
      && FallsBelowIn(raw, agent, allowed)
      && exists o :: o in JudgedIn(raw, agent, allowed) && o < 0
  {
    hide Base58.Encode, Read, ParseHead, Walk, FirstIndex, Compact, TxBytes, Message, JudgedIn, FallsBelowIn, Flatten;
    var m := FallingMessage(program, agent, blockhash);
    var keys := [program, agent];
    MessageOfTx([sig], m);
    FallingParts(program, agent, blockhash);
    AddressIndex(keys, agent);
    SecondKey(program, agent);
    NegativeLengthWalk(m, Read(m, ParseHead(m).next + 32).1, Addresses(keys), allowed);
    AnyBytes(TxBytes([sig], m), agent, allowed);
  }

  lemma SecondKey(a: seq<Byte>, b: seq<Byte>)
    requires a != b
    ensures FirstIndex([a, b], b) == 1
  {
    assert [a, b][1..] == [b];
  }

  lemma FallingParts(program: seq<Byte>, agent: seq<Byte>, blockhash: seq<Byte>)
    requires |program| == |agent| == |blockhash| == 32
    ensures var m := FallingMessage(program, agent, blockhash); var h := ParseHead(m);
      var (n, p) := Read(m, h.next + 32);
      && h.keys == [program, agent] && h.numReqSig == Some(2)
      && n == 2 && 0 <= p && p + 6 == |m| < 0x7000_0000 && m[p..p + 6] == FALLING
  {
    hide Read, ParseHead, Compact, Flatten;
    var m := FallingMessage(program, agent, blockhash);
    var afterHash := Compact(2) + FALLING;
    FallingHead(program, agent, blockhash);
    FallingLength(program, agent, blockhash);
    hide FallingMessage;
    var h := ParseHead(m);
    Skip(m, h.next, blockhash, afterHash);
    ReadCompact(m, h.next + 32, 2, FALLING);
    var p := h.next + 32 + |Compact(2)|;
    assert |m[p..]| == |m| - p && |FALLING| == 6;
    assert m[p..p + 6] == m[p..][..6] == FALLING;
  }

  lemma FallingHead(program: seq<Byte>, agent: seq<Byte>, blockhash: seq<Byte>)
    requires |program| == |agent| == |blockhash| == 32
    ensures var m := FallingMessage(program, agent, blockhash); var h := ParseHead(m);
      && h.keys == [program, agent] && h.numReqSig == Some(2)
      && h.next <= |m| && m[h.next..] == blockhash + (Compact(2) + FALLING)
  {
    hide ParseHead, Compact, Flatten;
    var msg := TxMessage(false, 2, 0, 1, [program, agent], blockhash, [], []);
    assert msg.HeadBytes() == [2, 0, 1];
    HeadOfBytes(FallingMessage(program, agent, blockhash), msg, blockhash + (Compact(2) + FALLING));
  }

  lemma CompactTwo()
    ensures |Compact(2)| == 1
  {
  }

  lemma FallingLength(program: seq<Byte>, agent: seq<Byte>, blockhash: seq<Byte>)
    requires |program| == |agent| == |blockhash| == 32
    ensures |FallingMessage(program, agent, blockhash)| == 107
  {
    var keys := [program, agent];
    CompactTwo();
    FlattenLength(keys, 32);
    hide Flatten, Compact;
    assert |Flatten(keys) + (blockhash + (Compact(2) + FALLING))| == 64 + (32 + (1 + 6));
  }

  lemma NegativePrefix(m: seq<Byte>, o: nat)
    requires o + 5 <= |m| && m[o..o + 5] == [0x80, 0x80, 0x80, 0x80, 0x08]
    ensures Read(m, o) == (-0x8000_0000, o + 5)
  {
    hide ReadBits, Accumulate;
    var five := m[o..o + 5];
    assert m[o] == five[0] && m[o + 1] == five[1] && m[o + 2] == five[2] && m[o + 3] == five[3] && m[o + 4] == five[4];
    ContinueZero(m, o, 0);
    ContinueZero(m, o + 1, 7);
    ContinueZero(m, o + 2, 14);
    ContinueZero(m, o + 3, 21);
    LastByte(m, o + 4);
  }

  lemma {:induction false} ContinueZero(m: seq<Byte>, o: nat, shift: nat)
    requires o < |m| && m[o] == 0x80
    ensures ReadBits(m, o, 0, shift) == ReadBits(m, o + 1, 0, shift + 7)
  {
    hide Accumulate, Pow2;
    NothingAdded(shift);
  }

  lemma NothingAdded(shift: nat)
    ensures Accumulate(0, 0x80, shift) == 0
  {
    hide Pow2;
    assert 0 * Pow2(shift % 32) == 0;
    OrZero(0);
  }

  lemma LastByte(m: seq<Byte>, o: nat)
    requires o < |m| && m[o] == 8
    ensures ReadBits(m, o, 0, 28) == (TWO31, o + 1)
  {
    TwentyEight();
    AccumulateFresh(0, 8, 28);
  }

  lemma TwentyEight()
    ensures 8 * Pow2(28) == TWO31 && Pow2(28) > 0
  {
    Pow2Values();
    Pow2Add(3, 28);
    assert Pow2(3) == 8;
  }

  // ---------------------------------------------------------------------------------------------
  // Signing
  // ---------------------------------------------------------------------------------------------

  datatype SignError = NoSlots | NotInKeys | NotASigner

  /** `buf` with `piece` copied in at `off`, cut short at the end of the buffer. */
  function Overwrite(buf: seq<Byte>, off: nat, piece: seq<Byte>): (r: seq<Byte>)
    ensures |r| == |buf|
    ensures forall i :: 0 <= i < |buf| ==> r[i] == if off <= i < off + |piece| then piece[i - off] else buf[i]
  {
    seq(|buf|, i requires 0 <= i < |buf| => if off <= i < off + |piece| then piece[i - off] else buf[i])
  }

  /** The slot the signature goes to, or why there is none. */
  function Slot(raw: seq<Byte>, pubkey: seq<Byte>): Result<nat, SignError> {
    var (sigCount, sigStart) := Read(raw, 0);
    var h := ParseHead(Message(raw));
    var idx := LastIndex(h.keys, pubkey);
    if sigCount < 1 then Err(NoSlots)
    else if idx < 0 then Err(NotInKeys)
    else if !RequiredSigner(idx, h.numReqSig) || idx >= sigCount then Err(NotASigner)
    else Ok(sigStart + idx * 64)
  }

  function Signed(raw: seq<Byte>, pubkey: seq<Byte>, sign: seq<Byte> -> seq<Byte>): Result<seq<Byte>, SignError> {
    match Slot(raw, pubkey)
    case Ok(off) => Ok(Overwrite(raw, off, sign(Message(raw))))
    case Err(e) => Err(e)
  }

  /** `signSerializedTx`, on the decoded buffer: the signature is copied into its slot in place. */
  method SignSerializedTx(raw: array<Byte>, pubkey: seq<Byte>, sign: seq<Byte> -> seq<Byte>)
    returns (r: Result<(), SignError>)
    modifies raw
    ensures match Signed(old(raw[..]), pubkey, sign)
      case Ok(out) => r == Ok(()) && raw[..] == out
      case Err(e) => r == Err(e) && raw[..] == old(raw[..])
  {
    hide ReadBits, KeysAt, LastIndex;
    ghost var before := raw[..];
    var sigCount, sigArrayStart := ReadCompactU16(raw[..], 0);
    if sigCount < 1 { return Err(NoSlots); }
    var message := raw[Clamp(raw.Length, sigArrayStart + sigCount * 64)..];
    assert message == Message(before);
    var idx, numReqSig := FindSignerIndex(message, pubkey);
    if idx < 0 { return Err(NotInKeys); }
    if !RequiredSigner(idx, numReqSig) || idx >= sigCount { return Err(NotASigner); }
    CopyInto(sign(message), raw, sigArrayStart + idx * 64);
    r := Ok(());
  }

  /** `copy`: what does not fit is left away. */
  method CopyInto(piece: seq<Byte>, buf: array<Byte>, off: nat)
    modifies buf
    ensures buf[..] == Overwrite(old(buf[..]), off, piece)
  {
    for i := 0 to |piece|
      invariant forall j :: 0 <= j < buf.Length ==>
        buf[j] == if off <= j < off + i then piece[j - off] else old(buf[j])
    {
      if off + i < buf.Length {
        buf[off + i] := piece[i];
      }
    }
  }

  /** A key can only be found in a message long enough to hold it, so the slot ends before the
      message begins. */
  lemma SlotInBounds(raw: seq<Byte>, pubkey: seq<Byte>)
    requires |pubkey| == 32 && Slot(raw, pubkey).Ok?
    ensures var (sigCount, sigStart) := Read(raw, 0);
      && MessageStart(raw) == sigStart + sigCount * 64 <= |raw|
      && sigStart <= Slot(raw, pubkey).value
      && Slot(raw, pubkey).value + 64 <= MessageStart(raw)
  {
    hide ReadBits;
    var (sigCount, sigStart) := Read(raw, 0);
    if sigStart + sigCount * 64 > |raw| {
      EmptyMessageHasNoKeys(Message(raw));
      assert false;
    }
  }

  lemma EmptyMessageHasNoKeys(m: seq<Byte>)
    requires m == []
    ensures ParseHead(m).keys == []
  {
    ZeroPrefix(m, 3);
  }

  /** Signing changes nothing outside the agent's own 64-byte slot: the signature count, the other
      slots and the message stay, so a second inspection says the same. */
  lemma SigningFrame(raw: seq<Byte>, pubkey: seq<Byte>, sign: seq<Byte> -> seq<Byte>)
    requires |pubkey| == 32 && |sign(Message(raw))| == 64
    requires Signed(raw, pubkey, sign).Ok?
    ensures var out := Signed(raw, pubkey, sign).value; var off := Slot(raw, pubkey).value;
      && |out| == |raw| && off + 64 <= |raw|
      && out[off..off + 64] == sign(Message(raw))
      && out[..off] == raw[..off] && out[off + 64..] == raw[off + 64..]
      && Read(out, 0) == Read(raw, 0)
      && Message(out) == Message(raw)
      && (forall pk, allowed :: Inspect(out, pk, allowed) == Inspect(raw, pk, allowed))
      && (forall pk :: Slot(out, pk) == Slot(raw, pk))
  {
    hide ReadBits, ParseHead, InspectMessage, LastIndex;
    var out := Signed(raw, pubkey, sign).value;
    SlotInBounds(raw, pubkey);
    ReadSame(raw, out, 0);
    assert Message(out) == Message(raw);
  }

  /** Two different required signers can sign in either order: the bytes are the same. */
  lemma SigningCommutes(raw: seq<Byte>, a: seq<Byte>, signA: seq<Byte> -> seq<Byte>, b: seq<Byte>,
                        signB: seq<Byte> -> seq<Byte>)
    requires |a| == |b| == 32 && a != b
    requires |signA(Message(raw))| == |signB(Message(raw))| == 64
    requires Signed(raw, a, signA).Ok? && Signed(raw, b, signB).Ok?
    ensures var ra, rb := Signed(raw, a, signA).value, Signed(raw, b, signB).value;
      && Signed(ra, b, signB).Ok? && Signed(rb, a, signA) == Signed(ra, b, signB)
  {
    hide ReadBits, ParseHead, InspectMessage, LastIndex, Read;
    SigningFrame(raw, a, signA);
    SigningFrame(raw, b, signB);
    SlotsDisjoint(raw, a, b);
    var ra, rb := Signed(raw, a, signA).value, Signed(raw, b, signB).value;
    assert Signed(ra, b, signB).value == Signed(rb, a, signA).value;
  }

  lemma SlotsDisjoint(raw: seq<Byte>, a: seq<Byte>, b: seq<Byte>)
    requires a != b && Slot(raw, a).Ok? && Slot(raw, b).Ok?
    ensures Slot(raw, a).value + 64 <= Slot(raw, b).value || Slot(raw, b).value + 64 <= Slot(raw, a).value
  {
    hide ReadBits, ParseHead;
  }

  /** The inspection (first match on addresses) and the signing (last match on bytes) look at the
      same key exactly when the agent's key stands at most once among the static keys. */
  lemma SameKeyIff(m: seq<Byte>, pubkey: seq<Byte>)
    ensures var keys := ParseHead(m).keys;
      FirstIndex(Addresses(keys), Base58.Encode(pubkey)) == LastIndex(keys, pubkey)
      <==> (forall i, j :: 0 <= i < j < |keys| ==> !(keys[i] == pubkey && keys[j] == pubkey))
  {
    hide Addresses, Base58.Encode, FirstIndex, LastIndex, ParseHead;
    var keys := ParseHead(m).keys;
    AddressIndex(keys, pubkey);
    var f, l := FirstIndex(keys, pubkey), LastIndex(keys, pubkey);
    if f >= 0 {
      forall i | 0 <= i < f ensures keys[i] != pubkey { assert keys[i] in keys[..f]; }
      forall i | l < i < |keys| ensures keys[i] != pubkey { assert keys[i] == keys[l + 1..][i - l - 1]; }
    }
  }

  /** What passed inspection is signed in the inspected signer's own slot, when the keys are distinct
      and the transaction carries a slot for it. */
  lemma InspectedIsSigned(raw: seq<Byte>, pubkey: seq<Byte>, allowed: set<string>)
    requires Inspect(raw, pubkey, allowed).Ok?
    requires var keys := ParseHead(Message(raw)).keys; forall i, j :: 0 <= i < j < |keys| ==> keys[i] != keys[j]
    ensures var (sigCount, sigStart) := Read(raw, 0); var idx := Inspect(raw, pubkey, allowed).value.signerIndex;
      if idx < sigCount then Slot(raw, pubkey) == Ok(sigStart + 64 * idx) else Slot(raw, pubkey).Err?
  {
    hide ReadBits, Read, ParseHead, Walk, FirstIndex, LastIndex, Addresses, Base58.Encode, Message;
    SameKeyIff(Message(raw), pubkey);
  }

  /** The key stands there and nowhere after. */
  predicate LastAt(keys: seq<seq<Byte>>, k: seq<Byte>, i: nat) {
    i < |keys| && keys[i] == k && k !in keys[i + 1..]
  }

  lemma LastAtUnique(keys: seq<seq<Byte>>, k: seq<Byte>, i: nat)
    ensures LastAt(keys, k, i) <==> LastIndex(keys, k) == i
  {
    var l := LastIndex(keys, k);
    if LastAt(keys, k, i) {
      assert keys[i] in keys;
      forall j | i < j < |keys| ensures keys[j] != k { assert keys[j] in keys[i + 1..]; }
      forall j | l < j < |keys| ensures keys[j] != k { assert keys[j] in keys[l + 1..]; }
    }
  }

  lemma HeadOfMessage(msg: TxMessage)
    requires msg.Valid()
    ensures var h := ParseHead(msg.Bytes()); h.keys == msg.keys && h.numReqSig == Some(msg.numReqSig)
  {
    hide Read, ParseHead, Compact, InstructionBytes;
    HeadOfBytes(msg.Bytes(), msg, msg.blockhash
      + (Compact(|msg.instructions|) + (InstructionBytes(msg.instructions) + msg.lookups)));
  }

  lemma SlotOfTx(sigs: seq<seq<Byte>>, msg: TxMessage, pubkey: seq<Byte>)
    requires msg.Valid() && |sigs| < TWO31 && forall s :: s in sigs ==> |s| == 64
    ensures var i := LastIndex(msg.keys, pubkey);
      Slot(TxBytes(sigs, msg.Bytes()), pubkey)
      == if sigs == [] then Err(NoSlots)
         else if i < 0 then Err(NotInKeys)
         else if i >= msg.numReqSig || i >= |sigs| then Err(NotASigner)
         else Ok(|Compact(|sigs|)| + i * 64)
  {
    hide Read, ParseHead, LastIndex, TxMessage.Bytes, TxMessage.Valid, TxBytes, Message, MessageStart, Compact;
    MessageOfTx(sigs, msg.Bytes());
    HeadOfMessage(msg);
  }

  /** Signing fills in one entry of the signature array: for every well-formed message behind any such
      array, the one of the agent's last static key, if that is a required signer with a slot; there the
      signature of the message goes, and everything else stays. Otherwise it is refused. */
  lemma SigningFillsSlot(sigs: seq<seq<Byte>>, msg: TxMessage, pubkey: seq<Byte>, sign: seq<Byte> -> seq<Byte>)
    requires msg.Valid() && |sign(msg.Bytes())| == 64
    requires |sigs| < TWO31 && forall s :: s in sigs ==> |s| == 64
    ensures var r := Signed(TxBytes(sigs, msg.Bytes()), pubkey, sign);
      && (r.Ok? <==> exists i: nat :: i < |sigs| && i < msg.numReqSig && LastAt(msg.keys, pubkey, i))
      && (forall i: nat :: i < |sigs| && i < msg.numReqSig && LastAt(msg.keys, pubkey, i) ==>
            r == Ok(TxBytes(sigs[i := sign(msg.Bytes())], msg.Bytes())))
      && (r == Err(NoSlots) <==> sigs == [])
      && (r == Err(NotInKeys) <==> sigs != [] && pubkey !in msg.keys)
  {
    hide Slot, LastIndex, TxMessage.Bytes, TxMessage.Valid, TxBytes, Message, MessageStart, LastAt, Overwrite, Compact;
    var m := msg.Bytes();
    MessageOfTx(sigs, m);
    SlotOfTx(sigs, msg, pubkey);
    var l := LastIndex(msg.keys, pubkey);
    forall i: nat ensures LastAt(msg.keys, pubkey, i) <==> l == i { LastAtUnique(msg.keys, pubkey, i); }
    if 0 <= l < |sigs| {
      assert LastAt(msg.keys, pubkey, l);
      FillSlot(sigs, m, l, sign(m));
    }
  }

  lemma FillSlot(sigs: seq<seq<Byte>>, m: seq<Byte>, i: nat, sig: seq<Byte>)
    requires i < |sigs| && |sig| == 64 && forall s :: s in sigs ==> |s| == 64
    ensures Overwrite(TxBytes(sigs, m), |Compact(|sigs|)| + i * 64, sig) == TxBytes(sigs[i := sig], m)
  {
    hide Compact, Flatten;
    var c, f, f' := Compact(|sigs|), Flatten(sigs), Flatten(sigs[i := sig]);
    FlattenUpdate(sigs, i, sig);
    FlattenLength(sigs, 64);
    forall x | 0 <= x < |c + (f + m)|
      ensures Overwrite(c + (f + m), |c| + i * 64, sig)[x] == (c + (f' + m))[x]
    {
      if |c| <= x < |c| + |f| {
        assert f' == Overwrite(f, i * 64, sig);
      }
    }
  }

  /** One entry of the array is 64 bytes of the flat form. */
  lemma {:induction false} FlattenUpdate(sigs: seq<seq<Byte>>, i: nat, sig: seq<Byte>)
    requires i < |sigs| && |sig| == 64 && forall s :: s in sigs ==> |s| == 64
    ensures |Flatten(sigs[i := sig])| == |Flatten(sigs)| == 64 * |sigs|
    ensures Flatten(sigs[i := sig]) == Overwrite(Flatten(sigs), i * 64, sig)
  {
    FlattenLength(sigs, 64);
    FlattenLength(sigs[i := sig], 64);
    assert sigs[0] in sigs;
    var rest := Flatten(sigs[1..]);
    if i == 0 {
      assert sigs[0 := sig][1..] == sigs[1..];
    } else {
      assert sigs[i := sig][1..] == sigs[1..][i - 1 := sig];
      FlattenUpdate(sigs[1..], i - 1, sig);
    }
  }
}
