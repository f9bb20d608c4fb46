/** signer/withdraw.js: the hand-built transfer transaction that sends an agent's SOL back to its
    owner. */
module Withdraw {
  import opened Bytes
  import opened Bits
  import opened Digits
  import opened ShortVec
  import opened SolanaTx
  import Base58

  const TWO64: nat := 0x1_0000_0000_0000_0000

  datatype BuildError = BadBlockhash | BadLength | LamportsOutOfRange

  /** `n` as `width` little-endian bytes. */
  function LittleEndian(n: nat, width: nat): (r: seq<Byte>)
    ensures |r| == width
    decreases width
  {
    if width == 0 then [] else [n % 256] + LittleEndian(n / 256, width - 1)
  }

  /** The bytes are the number's digits to base 256. */
  lemma {:induction false} LittleEndianRoundTrip(n: nat, width: nat)
    requires n < Pow(256, width)
    ensures Val(LittleEndian(n, width), 256) == n
    decreases width
  {
    if width > 0 {
      LittleEndianRoundTrip(n / 256, width - 1);
      assert LittleEndian(n, width)[1..] == LittleEndian(n / 256, width - 1);
    }
  }

  /** The System program's id, 32 zero bytes. */
  const SYSTEM: seq<Byte> := Repeat(0, 32)

  /** Its address: `base58decode('1'.repeat(32))` in the source. */
  lemma SystemAddress()
    ensures Base58.Encode(SYSTEM) == Repeat('1', 32)
    ensures Base58.Decode(Repeat('1', 32)) == Ok(SYSTEM)
  {
    Base58.LeadingZerosUnique(SYSTEM, 32);
    assert SYSTEM[32..] == [];
    assert Base58.Encode(SYSTEM) == Repeat('1', 32);
    Base58.DecodeEncode(SYSTEM);
  }

  /** `data`: instruction number 2 in four bytes, then the amount in eight. */
  function TransferData(lamports: nat): (r: seq<Byte>)
    ensures |r| == 12
  {
    LittleEndian(2, 4) + LittleEndian(lamports, 8)
  }

  /** The message the format says a transfer is. */
  function Transfer(from: seq<Byte>, to: seq<Byte>, lamports: nat, blockhash: seq<Byte>): TxMessage {
    TxMessage(false, 1, 0, 1, [from, to, SYSTEM], blockhash,
              [Instruction(2, [0, 1], TransferData(lamports))], [])
  }

  function BuildMessage(from: seq<Byte>, to: seq<Byte>, lamports: int,
                        blockhash58: string): Result<seq<Byte>, BuildError> {
    match Base58.Decode(blockhash58)
    case Err(_) => Err(BadBlockhash)
    case Ok(bh) =>
      if |from| != 32 || |to| != 32 || |bh| != 32 then Err(BadLength)
      else if !(0 <= lamports < TWO64) then Err(LamportsOutOfRange)
      else Ok(Transfer(from, to, lamports, bh).Bytes())
  }

  /** `buildSolTransferMessage`: the parts in the order the source concatenates them. */
  method BuildSolTransferMessage(from: seq<Byte>, to: seq<Byte>, lamports: int, blockhash58: string)
    returns (r: Result<seq<Byte>, BuildError>)
    ensures r == BuildMessage(from, to, lamports, blockhash58)
  {
    hide Base58.Decode, Base58.Encode;
    var decoded := Base58.DecodeLoop(blockhash58);
    if decoded.Err? { return Err(BadBlockhash); }
    var bh := decoded.value;
    if |from| != 32 || |to| != 32 || |bh| != 32 { return Err(BadLength); }
    var header: seq<Byte> := [1, 0, 1];
    var three := CompactU16(3);
    var keys := three + from + to + SYSTEM;
    if !(0 <= lamports < TWO64) { return Err(LamportsOutOfRange); }
    var data := WriteData(lamports);
    var two := CompactU16(2);
    var twelve := CompactU16(|data|);
    var ix := [2] + two + [0, 1] + twelve + data;
    var one := CompactU16(1);
    var ixs := one + ix;
    var message := header + keys + bh + ixs;
    SameBytes(from, to, lamports, bh);
    r := Ok(message);
  }

  /** The zero-filled buffer and the two writes into it. */
  method WriteData(lamports: nat) returns (data: seq<Byte>)
    requires lamports < TWO64
    ensures data == TransferData(lamports)
  {
    var buf := new Byte[12](_ => 0);
    WriteLE(buf, 0, 2, 4);
    WriteLE(buf, 4, lamports, 8);
    assert buf[..] == buf[0..4] + buf[4..12];
    data := buf[..];
  }

  /** A little-endian write in place. */
  method WriteLE(buf: array<Byte>, at: nat, value: nat, width: nat)
    requires at + width <= buf.Length
    modifies buf
    ensures buf[at..at + width] == LittleEndian(value, width)
    ensures forall i :: 0 <= i < buf.Length && !(at <= i < at + width) ==> buf[i] == old(buf[i])
  {
    var v := value;
    for i := 0 to width
      invariant LittleEndian(value, width) == buf[at..at + i] + LittleEndian(v, width - i)
      invariant forall k :: 0 <= k < buf.Length && !(at <= k < at + i) ==> buf[k] == old(buf[k])
    {
      ghost var done := buf[at..at + i];
      buf[at + i] := v % 256;
      assert buf[at..at + i + 1] == done + [v % 256];
      assert done + ([v % 256] + LittleEndian(v / 256, width - i - 1)) ==
        (done + [v % 256]) + LittleEndian(v / 256, width - i - 1);
      v := v / 256;
    }
  }

  lemma SameBytes(from: seq<Byte>, to: seq<Byte>, lamports: nat, bh: seq<Byte>)
    ensures [1, 0, 1] + (Compact(3) + from + to + SYSTEM) + bh
      + (Compact(1) + ([2] + Compact(2) + [0, 1] + Compact(12) + TransferData(lamports)))
      == Transfer(from, to, lamports, bh).Bytes()
  {
    hide Compact, TransferData;
    var d := TransferData(lamports);
    var ix := Instruction(2, [0, 1], d);
    var c1, c2, c3, c12 := Compact(1), Compact(2), Compact(3), Compact(12);
    var keys := from + to + SYSTEM;
    var tail := [2] + c2 + [0, 1] + c12 + d;
    OneIs(ix, c2, c12);
    SingleInstruction(ix);
    FlattenThree(from, to, SYSTEM);
    assert c3 + from + to + SYSTEM == c3 + keys;
    Regroup([1, 0, 1], c3, keys, bh, c1, tail);
    assert Transfer(from, to, lamports, bh).HeadBytes() == [1, 0, 1];
  }

  lemma OneIs(ix: Instruction, c: seq<Byte>, d: seq<Byte>)
    requires c == Compact(|ix.accounts|) && d == Compact(|ix.data|)
    ensures OneInstruction(ix) == [ix.program] + c + ix.accounts + d + ix.data
  {
    Assoc([ix.program] + c + ix.accounts, d, ix.data);
    Assoc([ix.program] + c, ix.accounts, d + ix.data);
    Assoc([ix.program], c, ix.accounts + (d + ix.data));
  }

  lemma SingleInstruction(ix: Instruction)
    ensures InstructionBytes([ix]) == OneInstruction(ix)
  {
    assert [ix][1..] == [];
    assert InstructionBytes([ix]) == OneInstruction(ix) + InstructionBytes([]);
  }

  lemma FlattenThree(a: seq<Byte>, b: seq<Byte>, c: seq<Byte>)
    ensures Flatten([a, b, c]) == a + b + c
  {
    assert [a, b, c][1..] == [b, c] && [b, c][1..] == [c] && [c][1..] == [];
    assert Flatten([c]) == c + Flatten([]);
    assert c + [] == c;
    Assoc(a, b, c);
  }

  lemma Regroup(h: seq<Byte>, c: seq<Byte>, k: seq<Byte>, bh: seq<Byte>, n: seq<Byte>, ixs: seq<Byte>)
    ensures h + (c + k) + bh + (n + ixs) == h + (c + (k + (bh + (n + (ixs + [])))))
  {
    assert ixs + [] == ixs;
    Assoc(h + (c + k), bh, n + ixs);
    Assoc(h, c + k, bh + (n + ixs));
    Assoc(c, k, bh + (n + ixs));
  }

  /** `signTransferTx`: one signature, then the message. */
  method SignTransferTx(message: seq<Byte>, sign: seq<Byte> -> seq<Byte>) returns (raw: seq<Byte>)
    ensures raw == TxBytes([sign(message)], message)
  {
    var sig := sign(message);
    var one := CompactU16(1);
    raw := one + sig + message;
    assert Flatten([sig]) == sig;
  }

  lemma TransferValid(from: seq<Byte>, to: seq<Byte>, lamports: nat, bh: seq<Byte>)
    requires |from| == |to| == |bh| == 32
    ensures Transfer(from, to, lamports, bh).Valid()
  {
  }

  lemma OnlyForbidden(ix: Instruction, keys: seq<seq<Byte>>, allowed: set<string>)
    ensures FirstForbidden([ix], keys, allowed) == if Permitted(ix, keys, allowed) then None else Some(ix)
  {
    assert [ix][1..] == [];
  }

  /** The signer's own inspection of the transfer it builds: with the System program on the list it
      is accepted, the agent is signer 0 and pays, and no program is left unresolved; without, it is
      refused for that program. */
  lemma TransferPassesInspection(from: seq<Byte>, to: seq<Byte>, lamports: int, blockhash58: string,
                                 sign: seq<Byte> -> seq<Byte>, allowed: set<string>)
    requires BuildMessage(from, to, lamports, blockhash58).Ok?
    requires |sign(BuildMessage(from, to, lamports, blockhash58).value)| == 64
    ensures var m := BuildMessage(from, to, lamports, blockhash58).value;
      Inspect(TxBytes([sign(m)], m), from, allowed)
        == if Repeat('1', 32) in allowed then Ok(Report([], Base58.Encode(from), 0))
          else Err(ProgramNotAllowed(Repeat('1', 32)))
  {
    hide Base58.Encode, Base58.Decode, Inspect, TxMessage.Bytes, TxBytes, TransferData, FirstForbidden;
    var bh := Base58.Decode(blockhash58).value;
    var t := Transfer(from, to, lamports, bh);
    TransferValid(from, to, lamports, bh);
    InspectWellFormed([sign(t.Bytes())], t, from, allowed);
    SystemAddress();
    assert t.instructions[0].program == 2 && t.keys[2] == SYSTEM;
    assert Permitted(t.instructions[0], t.keys, allowed) <==> Repeat('1', 32) in allowed;
    OnlyForbidden(t.instructions[0], t.keys, allowed);
    assert Unresolved(t.instructions, 3) == [] by { assert t.instructions[1..] == []; }
  }

  /** What a reader of the format sees in a transfer message: its destination, amount, payer and
      blockhash, read back by the inspection's own parser. */
  datatype Seen = Seen(payer: seq<Byte>, to: seq<Byte>, program: seq<Byte>, lamports: nat, blockhash: seq<Byte>)

  function ReadTransfer(m: seq<Byte>): Option<Seen> {
    var h := ParseHead(m);
    if |h.keys| != 3 || h.next + 32 > |m| then None
    else
      var blockhash := m[h.next..h.next + 32];
      var (ixCount, p) := Read(m, h.next + 32);
      var (accLen, pa) := Read(m, p + 1);
      if accLen != 2 then None
      else
        var (dataLen, pd) := Read(m, pa + accLen);
        if !(ixCount == 1 && dataLen == 12 && 0 <= p < |m| && pa + 1 < |m| && pd + 12 == |m|) then None
        else if !(m[p] < 3 && m[pa] < 3 && m[pa + 1] < 3 && Val(m[pd..pd + 4], 256) == 2) then None
        else Some(Seen(h.keys[m[pa]], h.keys[m[pa + 1]], h.keys[m[p]], Val(m[pd + 4..pd + 12], 256), blockhash))
  }

  /** Decoding the built message yields exactly the destination and the amount. */
  lemma TransferRoundTrip(from: seq<Byte>, to: seq<Byte>, lamports: int, blockhash58: string)
    requires BuildMessage(from, to, lamports, blockhash58).Ok?
    ensures ReadTransfer(BuildMessage(from, to, lamports, blockhash58).value)
      == Some(Seen(from, to, SYSTEM, lamports, Base58.Decode(blockhash58).value))
  {
    hide Base58.Encode, Base58.Decode, Read, OneInstruction, TransferData, ParseHead, Val, TxMessage.Bytes;
    var bh := Base58.Decode(blockhash58).value;
    var m := Transfer(from, to, lamports, bh).Bytes();
    var next, p := TransferParts(m, from, to, lamports, bh);
    ReadBackInstruction(m, p, lamports);
    var (accLen, pa) := Read(m, p + 1);
    DataFields(m, Read(m, pa + accLen).1, lamports);
  }

  lemma TransferParts(m: seq<Byte>, from: seq<Byte>, to: seq<Byte>, lamports: nat, bh: seq<Byte>)
    returns (next: nat, p: nat)
    requires |from| == |to| == |bh| == 32
    requires m == Transfer(from, to, lamports, bh).Bytes()
    ensures ParseHead(m) == Head(Some(1), [from, to, SYSTEM], next)
    ensures next + 32 <= |m| && m[next..next + 32] == bh
    ensures Read(m, next + 32) == (1, p) && p <= |m|
    ensures m[p..] == OneInstruction(Instruction(2, [0, 1], TransferData(lamports))) + []
  {
    hide Read, Compact, OneInstruction, TransferData, ParseHead, Flatten, InstructionBytes, TxMessage.HeadBytes;
    var t := Transfer(from, to, lamports, bh);
    TransferValid(from, to, lamports, bh);
    SingleInstruction(t.instructions[0]);
    var afterCount := OneInstruction(t.instructions[0]) + [];
    HeadOfBytes(m, t, bh + (Compact(1) + afterCount));
    next := ParseHead(m).next;
    p := next + 32 + |Compact(1)|;
    Skip(m, next, bh, Compact(1) + afterCount);
    ReadCompact(m, next + 32, 1, afterCount);
  }

  lemma ReadBackInstruction(m: seq<Byte>, p: nat, lamports: nat)
    requires lamports < TWO64
    requires p <= |m| && m[p..] == OneInstruction(Instruction(2, [0, 1], TransferData(lamports))) + []
    ensures p < |m| && m[p] == 2
    ensures var (accLen, pa) := Read(m, p + 1); var (dataLen, pd) := Read(m, pa + accLen);
      && accLen == 2 && dataLen == 12 && pa + 1 < |m| && pd + 12 == |m|
      && m[pa] == 0 && m[pa + 1] == 1
      && m[pd..pd + 12] == TransferData(lamports)
  {
    hide Read, Compact, Val, LittleEndian, TransferData, OneInstruction;
    var d := TransferData(lamports);
    var ix := Instruction(2, [0, 1], d);
    var c2, c12 := Compact(2), Compact(12);
    var r := c12 + (d + []);
    InstructionParts(ix, c2, c12, []);
    Skip(m, p, [2], c2 + ([0, 1] + r));
    assert m[p] == m[p..p + 1][0];
    FieldOfBytes(m, p + 1, [0, 1], r);
    var pa := p + 1 + |c2|;
    assert m[pa] == m[pa..pa + 2][0] && m[pa + 1] == m[pa..pa + 2][1];
    FieldOfBytes(m, pa + 2, d, []);
  }

  lemma DataFields(m: seq<Byte>, pd: nat, lamports: nat)
    requires lamports < TWO64 && pd + 12 <= |m| && m[pd..pd + 12] == TransferData(lamports)
    ensures Val(m[pd..pd + 4], 256) == 2
    ensures Val(m[pd + 4..pd + 12], 256) == lamports
  {
    hide LittleEndian, Val, Pow;
    assert m[pd..pd + 4] == m[pd..pd + 12][..4] == LittleEndian(2, 4);
    assert m[pd + 4..pd + 12] == m[pd..pd + 12][4..] == LittleEndian(lamports, 8);
    WidthsSuffice();
    LittleEndianRoundTrip(2, 4);
    LittleEndianRoundTrip(lamports, 8);
  }

  lemma WidthsSuffice()
    ensures Pow(256, 4) == 0x1_0000_0000 && Pow(256, 8) == TWO64
  {
    assert Pow(256, 2) == 0x1_0000;
    assert Pow(256, 4) == 0x1_0000_0000;
    assert Pow(256, 6) == 0x1_0000_0000_0000;
  }

  /** No two transfers share a message. */
  lemma TransferInjective(f1: seq<Byte>, t1: seq<Byte>, l1: int, b1: string, f2: seq<Byte>, t2: seq<Byte>, l2: int,
                          b2: string)
    requires BuildMessage(f1, t1, l1, b1).Ok? && BuildMessage(f1, t1, l1, b1) == BuildMessage(f2, t2, l2, b2)
    ensures f1 == f2 && t1 == t2 && l1 == l2 && b1 == b2
  {
    TransferRoundTrip(f1, t1, l1, b1);
    TransferRoundTrip(f2, t2, l2, b2);
    Base58.EncodeDecode(b1);
    Base58.EncodeDecode(b2);
  }
}
