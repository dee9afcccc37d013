/**
 * The bootloader's side of the UART boot protocol (bootloader/uart.rs): the
 * little-endian word codec `rx_u32`, `rx_u64` and `tx_u32`, and `recv`, the
 * handshake that receives a program image and checks its CRC-32.
 */
module Uart {
  import opened Types
  import opened BitIndex
  import Crc

  const W32: nat := 32
  const W64: nat := 64

  // The `BootFlags` words.
  const BOOT_START: nat := 0xFFFF0000
  const GET_PROG_INFO: nat := 0x11223344
  const PUT_PROG_INFO: nat := 0x33334444
  const GET_CODE: nat := 0x55556666
  const PUT_CODE: nat := 0x77778888
  const BOOT_SUCCESS: nat := 0x9999AAAA
  const BOOT_ERROR: nat := 0xBBBBCCCC
  const BAD_CODE_ADDR: nat := 0xdeadbeef
  const BAD_CODE_CKSUM: nat := 0xfeedface

  // ---------------------------------------------------------------------------
  // The word codec.

  /** The number whose little-endian bytes are bs: byte j weighs 2^(8j). */
  function LeValue(bs: seq<uint8>): nat
  {
    if |bs| == 0 then 0 else LeValue(bs[..|bs| - 1]) + bs[|bs| - 1] * Pow2(8 * (|bs| - 1))
  }

  /**
   * The first k received bytes, each widened to n bits, shifted by 8j and or-ed
   * onto the earlier ones in the order `rx()` returned them.
   */
  function Assemble(bs: seq<uint8>, k: nat, n: nat): nat
    requires k <= |bs|
  {
    if k == 0 then 0 else Or(Assemble(bs, k - 1, n), Shl(bs[k - 1], 8 * (k - 1), n), n)
  }

  /** `rx_u32`: four received bytes, the first one least significant. */
  function RxU32(bs: seq<uint8>): (w: nat)
    requires |bs| >= 4
    ensures w < 0x1_0000_0000
  {
    Pow2Values();
    Assemble(bs, 4, W32)
  }

  /** `rx_u64`: eight received bytes, the first one least significant. */
  function RxU64(bs: seq<uint8>): (w: nat)
    requires |bs| >= 8
    ensures w < 0x1_0000_0000_0000_0000
  {
    Pow2Values();
    Assemble(bs, 8, W64)
  }

  /** `rx_u32` reads its four bytes as a little-endian number. */
  lemma RxU32Value(bs: seq<uint8>)
    requires |bs| >= 4
    ensures RxU32(bs) == LeValue(bs[..4])
  {
    AssembleValue(bs, 4, W32);
  }

  /** `rx_u64` reads its eight bytes as a little-endian number. */
  lemma RxU64Value(bs: seq<uint8>)
    requires |bs| >= 8
    ensures RxU64(bs) == LeValue(bs[..8])
  {
    AssembleValue(bs, 8, W64);
  }

  /** `u as u8`: the low byte. */
  function LowByte(x: nat): uint8
  {
    LowByteMeaning(x);
    Low(x, 8)
  }

  /** `tx_u32`: the four bytes sent for u, least significant first. */
  function TxU32(u: nat): (bs: seq<uint8>)
    ensures |bs| == 4
  {
    [LowByte(u), LowByte(Shr(u, 8)), LowByte(Shr(u, 16)), LowByte(Shr(u, 24))]
  }

  /** The bytes `tx_u32` sends are the little-endian form of the word. */
  lemma {:induction false} TxU32Value(u: nat)
    requires u < 0x1_0000_0000
    ensures LeValue(TxU32(u)) == u
  {
    var bs := TxU32(u);
    assert Shr(u, 0) == u;
    assert Bytes(u, 1) == [LowByte(u)];
    assert Bytes(u, 2) == Bytes(u, 1) + [LowByte(Shr(u, 8))];
    assert Bytes(u, 3) == Bytes(u, 2) + [LowByte(Shr(u, 16))];
    assert bs == Bytes(u, 4);
    BytesValue(u, 4);
    Pow2Values();
    DivModUnique(u, Pow2(32), 0, u);
  }

  /** What `rx_u32` decodes from the bytes `tx_u32` sends is the word sent. */
  lemma RxTxU32(u: nat, rest: seq<uint8>)
    requires u < 0x1_0000_0000
    ensures RxU32(TxU32(u) + rest) == u
  {
    assert (TxU32(u) + rest)[..4] == TxU32(u);
    RxU32Value(TxU32(u) + rest);
    TxU32Value(u);
  }

  // ---------------------------------------------------------------------------
  // `recv`, as a function of what the host sends.

  /** How `recv` ends: it returns the boot data, panics after reporting an error, or waits forever. */
  datatype Outcome =
    | Booted(entry: nat, data: seq<uint8>)
    | BootErrorPanic
    | ChecksumPanic
    | Stalled

  /** Where the GetProgInfo loop stops: after `tries` requests, having seen PutProgInfo or not. */
  datatype Handshake = Handshake(tries: nat, found: bool, rest: seq<uint8>)

  /**
   * The GetProgInfo loop: each pass sends one request and asks `rx_empty()`
   * (`polls` holds its answers); when data is waiting a word is read, and the loop
   * ends on PutProgInfo. It stops without `found` once the answers or the bytes run out.
   */
  function HandshakeFrom(input: seq<uint8>, polls: seq<bool>, tries: nat): (h: Handshake)
    ensures h.tries >= tries
    decreases |polls|
  {
    if |polls| == 0 then Handshake(tries, false, input)
    else if polls[0] then HandshakeFrom(input, polls[1..], tries + 1)
    else if |input| < 4 then Handshake(tries + 1, false, input)
    else if RxU32(input) == PUT_PROG_INFO then Handshake(tries + 1, true, input[4..])
    else HandshakeFrom(input[4..], polls[1..], tries + 1)
  }

  /** k copies of word w. */
  function Repeat(w: nat, k: nat): (ws: seq<nat>)
    ensures |ws| == k
  {
    if k == 0 then [] else Repeat(w, k - 1) + [w]
  }

  /** What `recv` does after PutProgInfo: its outcome and the words it sends. */
  function AfterInfo(input: seq<uint8>): (Outcome, seq<nat>)
  {
    if |input| < 16 then (Stalled, [])
    else
      var crc := RxU32(input[12..]);
      var after := AfterRequest(input[16..], RxU64(input), RxU32(input[8..]), crc);
      (after.0, [GET_CODE, crc] + after.1)
  }

  /** What `recv` does after sending GetCode and the checksum it was announced. */
  function AfterRequest(code: seq<uint8>, entry: nat, nbytes: nat, crc: nat): (Outcome, seq<nat>)
  {
    if |code| < 4 then (Stalled, [])
    else if RxU32(code) != PUT_CODE then (BootErrorPanic, [BOOT_ERROR])
    else if |code| - 4 < nbytes then (Stalled, [])
    else
      var data := code[4..4 + nbytes];
      if Crc.Checksum(data) != crc then (ChecksumPanic, [BAD_CODE_CKSUM])
      else (Booted(entry, data), [BOOT_SUCCESS])
  }

  /** The whole of `recv`: its outcome and every word it sends. */
  function RecvSpec(input: seq<uint8>, polls: seq<bool>): (Outcome, seq<nat>)
  {
    var h := HandshakeFrom(input, polls, 0);
    var requests := Repeat(GET_PROG_INFO, h.tries);
    if !h.found then (Stalled, requests)
    else
      var after := AfterInfo(h.rest);
      (after.0, requests + after.1)
  }

  // ---------------------------------------------------------------------------
  // `recv` itself, over a UART whose input is known in advance.

  /**
   * The UART `recv` talks to: the bytes still to arrive, the answers `rx_empty()`
   * will give, and the words sent so far with `tx_u32` (each goes out as `TxU32`).
   */
  class Port {
    var input: seq<uint8>
    var polls: seq<bool>
    var sent: seq<nat>

    constructor(input: seq<uint8>, polls: seq<bool>)
      ensures this.input == input && this.polls == polls && sent == []
    {
      this.input := input;
      this.polls := polls;
      sent := [];
    }

    /** `tx_u32`. */
    method Send(u: nat)
      requires u < 0x1_0000_0000
      modifies this
      ensures sent == old(sent) + [u]
      ensures input == old(input) && polls == old(polls)
    {
      sent := sent + [u];
    }

    /** `rx_u32`; the model reports a stall instead of blocking when fewer than four bytes remain. */
    method Receive32() returns (w: Option<nat>)
      modifies this
      ensures |old(input)| < 4 ==> w == None && input == old(input)
      ensures |old(input)| >= 4 ==> w == Some(RxU32(old(input))) && input == old(input)[4..]
      ensures sent == old(sent) && polls == old(polls)
    {
      if |input| < 4 {
        return None;
      }
      w := Some(RxU32(input));
      input := input[4..];
    }

    /** `n` calls of `rx()`, each byte stored after the previous one. */
    method ReceiveBytes(n: nat) returns (data: seq<uint8>)
      requires n <= |input|
      modifies this
      ensures data == old(input)[..n] && input == old(input)[n..]
      ensures sent == old(sent) && polls == old(polls)
    {
      data := [];
      var i := 0;
      while i < n
        invariant i <= n
        invariant data == old(input)[..i] && input == old(input)[i..]
        invariant sent == old(sent) && polls == old(polls)
      {
        data := data + [input[0]];
        input := input[1..];
        i := i + 1;
      }
    }
  }

  /** `recv`: the handshake, then the image into the heap, then the CRC check. */
  method Recv(port: Port) returns (o: Outcome)
    modifies port
    ensures o == RecvSpec(old(port.input), old(port.polls)).0
    ensures port.sent == old(port.sent) + RecvSpec(old(port.input), old(port.polls)).1
  {
    ghost var sent0 := port.sent;
    ghost var h := HandshakeFrom(port.input, port.polls, 0);
    var found := RequestInfo(port);
    if !found {
      return Stalled;
    }
    ghost var requests := Repeat(GET_PROG_INFO, h.tries);
    o := ReceiveImage(port);
    AppendAssoc(sent0, requests, AfterInfo(h.rest).1);
  }

  /** The GetProgInfo loop of `recv`. */
  method RequestInfo(port: Port) returns (found: bool)
    modifies port
    ensures found == HandshakeFrom(old(port.input), old(port.polls), 0).found
    ensures port.sent == old(port.sent) + Repeat(GET_PROG_INFO, HandshakeFrom(old(port.input), old(port.polls), 0).tries)
    ensures found ==> port.input == HandshakeFrom(old(port.input), old(port.polls), 0).rest
  {
    ghost var h := HandshakeFrom(port.input, port.polls, 0);
    ghost var sent0 := port.sent;
    var tries := 0;
    found := false;
    while |port.polls| > 0 && !found
      invariant port.sent == sent0 + Repeat(GET_PROG_INFO, tries)
      invariant !found ==> h == HandshakeFrom(port.input, port.polls, tries)
      invariant found ==> h == Handshake(tries, true, port.input)
      decreases |port.polls|, !found
    {
      HandshakeStep(port.input, port.polls, tries);
      AppendAssoc(sent0, Repeat(GET_PROG_INFO, tries), [GET_PROG_INFO]);
      port.Send(GET_PROG_INFO);
      var empty := port.polls[0];
      port.polls := port.polls[1..];
      tries := tries + 1;
      if !empty {
        var w := port.Receive32();
        if w == None {
          assert h.tries == tries;
          return false;
        }
        found := w.value == PUT_PROG_INFO;
      }
    }
    assert h.tries == tries;
  }

  /** One pass of the GetProgInfo loop. */
  lemma HandshakeStep(input: seq<uint8>, polls: seq<bool>, tries: nat)
    requires |polls| > 0
    ensures polls[0] ==> HandshakeFrom(input, polls, tries) == HandshakeFrom(input, polls[1..], tries + 1)
    ensures !polls[0] && |input| < 4 ==> HandshakeFrom(input, polls, tries) == Handshake(tries + 1, false, input)
    ensures !polls[0] && |input| >= 4 && RxU32(input) == PUT_PROG_INFO ==>
      HandshakeFrom(input, polls, tries) == Handshake(tries + 1, true, input[4..])
    ensures !polls[0] && |input| >= 4 && RxU32(input) != PUT_PROG_INFO ==>
      HandshakeFrom(input, polls, tries) == HandshakeFrom(input[4..], polls[1..], tries + 1)
  {
  }

  /** The part of `recv` after PutProgInfo: the program header, then GetCode and the checksum. */
  method ReceiveImage(port: Port) returns (o: Outcome)
    modifies port
    ensures o == AfterInfo(old(port.input)).0
    ensures port.sent == old(port.sent) + AfterInfo(old(port.input)).1
  {
    ghost var input0, sent0 := port.input, port.sent;
    if |port.input| < 16 {
      return Stalled;
    }
    var entry := RxU64(port.input);
    port.input := port.input[8..];
    var nbytes := port.Receive32();
    var crcRecv := port.Receive32();
    DropDrop(input0, 8, 4);
    DropDrop(input0, 12, 4);
    port.Send(GET_CODE);
    port.Send(crcRecv.value);
    ghost var reply := [GET_CODE, crcRecv.value];
    AppendAssoc(sent0, [GET_CODE], [crcRecv.value]);
    o := ReceiveCode(port, entry, nbytes.value, crcRecv.value);
    ghost var after := AfterRequest(input0[16..], entry, nbytes.value, crcRecv.value);
    AppendAssoc(sent0, reply, after.1);
  }

  /** The part of `recv` after GetCode: PutCode, the image, and the checksum test. */
  method ReceiveCode(port: Port, entry: nat, nbytes: nat, crc: nat) returns (o: Outcome)
    modifies port
    ensures o == AfterRequest(old(port.input), entry, nbytes, crc).0
    ensures port.sent == old(port.sent) + AfterRequest(old(port.input), entry, nbytes, crc).1
  {
    ghost var input0 := port.input;
    var code := port.Receive32();
    if code == None {
      return Stalled;
    }
    if code.value != PUT_CODE {
      port.Send(BOOT_ERROR);
      return BootErrorPanic;
    }
    if |port.input| < nbytes {
      return Stalled;
    }
    var data := port.ReceiveBytes(nbytes);
    assert data == input0[4..4 + nbytes];
    var crcCalc := Crc.Crc32(data);
    if crcCalc != crc {
      port.Send(BAD_CODE_CKSUM);
      return ChecksumPanic;
    }
    port.Send(BOOT_SUCCESS);
    o := Booted(entry, data);
  }

  // ---------------------------------------------------------------------------
  // Properties of the protocol.

  /**
   * `recv` boots only after the full exchange, and only an image whose CRC-32 is
   * the checksum the host announced and `recv` echoed.
   */
  lemma BootedMeansChecked(input: seq<uint8>, polls: seq<bool>)
    requires RecvSpec(input, polls).0.Booted?
    ensures var (o, sent) := RecvSpec(input, polls);
      exists t: nat :: t >= 1 && sent == Repeat(GET_PROG_INFO, t) + [GET_CODE, Crc.Checksum(o.data), BOOT_SUCCESS]
  {
    var h := HandshakeFrom(input, polls, 0);
    HandshakeTries(input, polls, 0);
    var crc := RxU32(h.rest[12..]);
    var after := AfterRequest(h.rest[16..], RxU64(h.rest), RxU32(h.rest[8..]), crc);
    assert Crc.Checksum(after.0.data) == crc;
  }

  /** The last word `recv` sends names how it ended. */
  lemma OutcomeReported(input: seq<uint8>, polls: seq<bool>)
    ensures var (o, sent) := RecvSpec(input, polls);
      && (o.Booted? ==> |sent| > 0 && sent[|sent| - 1] == BOOT_SUCCESS)
      && (o == BootErrorPanic ==> |sent| > 0 && sent[|sent| - 1] == BOOT_ERROR)
      && (o == ChecksumPanic ==> |sent| > 0 && sent[|sent| - 1] == BAD_CODE_CKSUM)
  {
    var h := HandshakeFrom(input, polls, 0);
    if h.found && |h.rest| >= 16 {
      var crc := RxU32(h.rest[12..]);
      var after := AfterRequest(h.rest[16..], RxU64(h.rest), RxU32(h.rest[8..]), crc);
      var reply := [GET_CODE, crc];
      var requests := Repeat(GET_PROG_INFO, h.tries);
      AppendAssoc(requests, reply, after.1);
    }
  }

  /**
   * What a host sends when the first poll finds data waiting: PutProgInfo, the
   * program header (entry address, image length, image CRC-32), PutCode, the image.
   */
  function HostStream(entry: seq<uint8>, data: seq<uint8>): seq<uint8>
  {
    TxU32(PUT_PROG_INFO) + (entry + (TxU32(|data|) + (TxU32(Crc.Checksum(data)) + (TxU32(PUT_CODE) + data))))
  }

  /** A host that follows the protocol gets its image booted at its entry address. */
  lemma HostBoots(entry: seq<uint8>, data: seq<uint8>, polls: seq<bool>)
    requires |entry| == 8 && |data| < 0x1_0000_0000
    requires |polls| > 0 && !polls[0]
    ensures RecvSpec(HostStream(entry, data), polls).0 == Booted(LeValue(entry), data)
  {
    var code := TxU32(PUT_CODE) + data;
    var info := entry + (TxU32(|data|) + (TxU32(Crc.Checksum(data)) + code));
    RxTxU32(PUT_PROG_INFO, info);
    DropAppend(TxU32(PUT_PROG_INFO), info);
    assert HandshakeFrom(HostStream(entry, data), polls, 0) == Handshake(1, true, info);
    HostHeader(entry, |data|, Crc.Checksum(data), code);
    RxTxU32(PUT_CODE, data);
    SliceAppend(TxU32(PUT_CODE), data);
    assert AfterRequest(code, LeValue(entry), |data|, Crc.Checksum(data)).0 == Booted(LeValue(entry), data);
    assert AfterInfo(info).0 == Booted(LeValue(entry), data);
  }

  /** The program header: entry address, length, checksum. */
  lemma HostHeader(entry: seq<uint8>, n: nat, crc: nat, rest: seq<uint8>)
    requires |entry| == 8 && n < 0x1_0000_0000 && crc < 0x1_0000_0000
    ensures var info := entry + (TxU32(n) + (TxU32(crc) + rest));
      && RxU64(info) == LeValue(entry)
      && RxU32(info[8..]) == n
      && RxU32(info[12..]) == crc
      && info[16..] == rest
  {
    var tail := TxU32(crc) + rest;
    var info := entry + (TxU32(n) + tail);
    assert info[..8] == entry;
    RxU64Value(info);
    DropAppend(entry, TxU32(n) + tail);
    RxTxU32(n, tail);
    DropDrop(info, 8, 4);
    DropAppend(TxU32(n), tail);
    RxTxU32(crc, rest);
    DropDrop(info, 12, 4);
    DropAppend(TxU32(crc), rest);
  }

  /** A handshake that ends sent at least one request. */
  lemma HandshakeTries(input: seq<uint8>, polls: seq<bool>, tries: nat)
    requires |polls| > 0
    ensures HandshakeFrom(input, polls, tries).tries > tries
    decreases |polls|
  {
    if polls[0] && |polls| > 1 {
      HandshakeTries(input, polls[1..], tries + 1);
    }
  }

  // ---------------------------------------------------------------------------
  // Proofs of the codec contracts.

  lemma ByteWeight()
    ensures Pow2(8) == 256
  {
    assert Pow2(4) == 16 by {
      assert Pow2(2) == 4;
    }
    Pow2Add(4, 4);
  }

  lemma {:induction false} LeValueBound(bs: seq<uint8>)
    ensures LeValue(bs) < Pow2(8 * |bs|)
  {
    if |bs| > 0 {
      var k := |bs| - 1;
      LeValueBound(bs[..k]);
      ByteFits(bs[k], 8 * k, 8 * |bs|);
      AddBelow(LeValue(bs[..k]), bs[k], Pow2(8 * k), Pow2(8 * |bs|));
    }
  }

  /** A byte shifted up by m still fits below 2^n when m + 8 <= n. */
  lemma ByteFits(b: nat, m: nat, n: nat)
    requires b < 256 && m + 8 <= n
    ensures (b + 1) * Pow2(m) <= Pow2(n)
    ensures Shl(b, m, n) == b * Pow2(m)
  {
    var q := Pow2(m);
    ByteWeight();
    Pow2Add(m, 8);
    Pow2Mono(m + 8, n);
    MulMonoLe(b + 1, 256, q);
    assert b * q < (b + 1) * q;
    ShlMeaning(b, m, n);
    DivModUnique(b * q, Pow2(n), 0, b * q);
  }

  lemma {:induction false} AssembleValue(bs: seq<uint8>, k: nat, n: nat)
    requires k <= |bs| && 8 * k <= n
    ensures Assemble(bs, k, n) == LeValue(bs[..k])
  {
    if k > 0 {
      var m := 8 * (k - 1);
      var b := bs[k - 1];
      AssembleValue(bs, k - 1, n);
      assert bs[..k][..k - 1] == bs[..k - 1];
      LeValueBound(bs[..k - 1]);
      ByteFits(b, m, n);
      OrAdd(LeValue(bs[..k - 1]), b, m, n);
    }
  }

  /** Or-ing a value below 2^p with c shifted up by p adds them. */
  lemma OrAdd(a: nat, c: nat, p: nat, n: nat)
    requires a < Pow2(p) && (c + 1) * Pow2(p) <= Pow2(n)
    ensures Or(a, c * Pow2(p), n) == a + c * Pow2(p)
  {
    OrAddBits(a, c * Pow2(p), c, p, n);
    AddBelow(a, c, Pow2(p), Pow2(n));
    Extensionality(Or(a, c * Pow2(p), n), a + c * Pow2(p), n);
  }

  lemma AddBelow(a: nat, c: nat, q: nat, m: nat)
    requires a < q && (c + 1) * q <= m
    ensures a + c * q < m
  {
  }

  lemma OrAddBits(a: nat, s: nat, c: nat, p: nat, n: nat)
    requires a < Pow2(p) && s == c * Pow2(p)
    ensures forall i: nat :: i < n ==> TestBit(Or(a, s, n), i) == TestBit(a + s, i)
  {
    forall i: nat | i < n ensures TestBit(Or(a, s, n), i) == TestBit(a + s, i) {
      OrAddBit(a, c, p, n, i);
    }
  }

  lemma OrAddBit(a: nat, c: nat, p: nat, n: nat, i: nat)
    requires a < Pow2(p) && i < n
    ensures TestBit(Or(a, c * Pow2(p), n), i) == TestBit(a + c * Pow2(p), i)
  {
    BitwiseBits(OrOp, a, c * Pow2(p), n, i);
    MulPow2Bits(c, p, i);
    AddShiftedBits(a, c, p, i);
    if i >= p {
      HighBitsZero(a, p, i);
    }
  }

  /** The bits of a + c * 2^p, for a below 2^p: those of a, then those of c. */
  lemma {:induction false} AddShiftedBits(a: nat, c: nat, p: nat, i: nat)
    requires a < Pow2(p)
    ensures TestBit(a + c * Pow2(p), i) == if i < p then TestBit(a, i) else TestBit(c, i - p)
    decreases p
  {
    if p > 0 {
      var q := Pow2(p - 1);
      var y := a / 2 + c * q;
      assert c * Pow2(p) == 2 * (c * q);
      assert a + c * Pow2(p) == 2 * y + a % 2;
      BitOfDouble(y, a % 2, if i == 0 then 0 else i - 1);
      if i > 0 {
        DivBelow(a, 2, q);
        AddShiftedBits(a / 2, c, p - 1, i - 1);
      }
    }
  }

  lemma LowByteMeaning(x: nat)
    ensures Low(x, 8) == x % 256
  {
    LowMeaning(x, 8);
    ByteWeight();
  }

  /** The first k bytes of u, least significant first. */
  function Bytes(u: nat, k: nat): (bs: seq<uint8>)
    ensures |bs| == k
  {
    if k == 0 then [] else Bytes(u, k - 1) + [LowByte(Shr(u, 8 * (k - 1)))]
  }

  lemma {:induction false} BytesValue(u: nat, k: nat)
    ensures LeValue(Bytes(u, k)) == u % Pow2(8 * k)
  {
    if k > 0 {
      BytesValue(u, k - 1);
      assert Bytes(u, k)[..k - 1] == Bytes(u, k - 1);
      ByteSplit(u, k - 1);
    }
  }

  /** Byte j of u completes its low j bytes to its low j + 1 bytes. */
  lemma ByteSplit(u: nat, j: nat)
    ensures u % Pow2(8 * j) + LowByte(Shr(u, 8 * j)) * Pow2(8 * j) == u % Pow2(8 * (j + 1))
  {
    var p := Pow2(8 * j);
    ShrMeaning(u, 8 * j);
    LowByteMeaning(Shr(u, 8 * j));
    ByteWeight();
    Pow2Add(8 * j, 8);
    DivDiv(u, p, 256);
  }
}
