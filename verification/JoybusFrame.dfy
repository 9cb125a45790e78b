/** A joybus frame as the PIF sees it: parsed once into handshakes, every handshake answered from the
    bytes it sent, and the answers laid over the frame. */
module JoybusFrame {
  import opened MachineWords
  import opened SaveBlocks
  import opened JoybusCrc

  const PIF_RAM_LEN: nat := 64
  const CMD_BYTE: nat := 0x3F
  const TX_END: bv8 := 0xFE
  const TX_SKIP: bv8 := 0x00
  const TX_NOP: bv8 := 0xFF
  const RX_NO_DEVICE: bv8 := 0x80

  type Ram = s: seq<bv8> | |s| == PIF_RAM_LEN witness seq(PIF_RAM_LEN, _ => 0)

  // ----- parsing

  /** One channel's handshake, by where it starts and the lengths its first two bytes give. */
  datatype Handshake = Handshake(channel: nat, at: nat, txLen: nat, rxLen: nat) {
    function RxByte(): nat { at + 1 }
    function Cmd(): nat { at + 2 }
    function Resp(): nat { at + 2 + txLen }
    function End(): nat { at + 2 + txLen + rxLen }
  }

  /** The low six bits of a length byte. */
  function Length(b: bv8): (n: nat)
    ensures n < 64
  {
    (b & 0x3F) as nat
  }

  predicate IsControl(b: bv8) {
    b == TX_END || b == TX_SKIP || b == TX_NOP
  }

  function HandshakeAt(ram: Ram, i: nat, channel: nat): Handshake
    requires i + 1 < PIF_RAM_LEN
  {
    Handshake(channel, i, Length(ram[i]), Length(ram[i + 1]))
  }

  /** The frame from byte i on, for the channels from `channel` on. */
  function Parse(ram: Ram, i: nat, channel: nat): seq<Handshake>
    decreases PIF_RAM_LEN - i
  {
    if i >= CMD_BYTE || channel > 4 || ram[i] == TX_END then []
    else if ram[i] == TX_NOP then Parse(ram, i + 1, channel)
    else if ram[i] == TX_SKIP then Parse(ram, i + 1, channel + 1)
    else if i + 1 >= CMD_BYTE || HandshakeAt(ram, i, channel).End() > PIF_RAM_LEN then []
    else
      var h := HandshakeAt(ram, i, channel);
      [h] + Parse(ram, h.End(), channel + 1)
  }

  /** One step of the parser, byte by byte. */
  lemma ParseCases(ram: Ram, i: nat, channel: nat)
    ensures i >= CMD_BYTE || channel > 4 || ram[i] == TX_END ==> Parse(ram, i, channel) == []
    ensures i < CMD_BYTE && channel <= 4 && ram[i] == TX_NOP ==>
      Parse(ram, i, channel) == Parse(ram, i + 1, channel)
    ensures i < CMD_BYTE && channel <= 4 && ram[i] == TX_SKIP ==>
      Parse(ram, i, channel) == Parse(ram, i + 1, channel + 1)
    ensures i < CMD_BYTE && channel <= 4 && !IsControl(ram[i]) ==>
      var h := HandshakeAt(ram, i, channel);
      Parse(ram, i, channel) == if i + 1 >= CMD_BYTE || h.End() > PIF_RAM_LEN then []
                                else [h] + Parse(ram, h.End(), channel + 1)
  {
  }

  /** Handshakes lie one after the other inside the frame, on ever higher channels. */
  ghost predicate InOrder(hs: seq<Handshake>, from: nat, channel: nat) {
    (forall j :: 0 <= j < |hs| ==>
      from <= hs[j].at && hs[j].RxByte() < CMD_BYTE && hs[j].End() <= PIF_RAM_LEN &&
      channel <= hs[j].channel <= 4) &&
    (forall j, k :: 0 <= j < k < |hs| ==> hs[j].End() <= hs[k].at && hs[j].channel < hs[k].channel)
  }

  lemma {:induction false} ParseInOrder(ram: Ram, i: nat, channel: nat)
    ensures InOrder(Parse(ram, i, channel), i, channel)
    decreases PIF_RAM_LEN - i
  {
    if i >= CMD_BYTE || channel > 4 || ram[i] == TX_END {
    } else if ram[i] == TX_NOP {
      ParseInOrder(ram, i + 1, channel);
    } else if ram[i] == TX_SKIP {
      ParseInOrder(ram, i + 1, channel + 1);
    } else if i + 1 >= CMD_BYTE || HandshakeAt(ram, i, channel).End() > PIF_RAM_LEN {
    } else {
      var h := HandshakeAt(ram, i, channel);
      ParseInOrder(ram, h.End(), channel + 1);
      ConsInOrder(h, Parse(ram, h.End(), channel + 1), i, channel);
    }
  }

  lemma ConsInOrder(h: Handshake, rest: seq<Handshake>, from: nat, channel: nat)
    requires from <= h.at && h.RxByte() < CMD_BYTE && h.End() <= PIF_RAM_LEN && h.channel == channel <= 4
    requires InOrder(rest, h.End(), channel + 1)
    ensures InOrder([h] + rest, from, channel)
  {
    var hs := [h] + rest;
    forall j, k | 0 <= j < k < |hs|
      ensures hs[j].End() <= hs[k].at && hs[j].channel < hs[k].channel
    {
      assert hs[k] == rest[k - 1];
      if j > 0 {
        assert hs[j] == rest[j - 1];
      }
    }
  }

  /** Parsing looks only at bytes it has not passed yet. */
  lemma {:induction false} ParseLooksAhead(a: Ram, b: Ram, i: nat, channel: nat)
    requires forall k :: i <= k < PIF_RAM_LEN ==> a[k] == b[k]
    ensures Parse(a, i, channel) == Parse(b, i, channel)
    decreases PIF_RAM_LEN - i
  {
    if i >= CMD_BYTE || channel > 4 || a[i] == TX_END {
    } else if a[i] == TX_NOP {
      ParseLooksAhead(a, b, i + 1, channel);
    } else if a[i] == TX_SKIP {
      ParseLooksAhead(a, b, i + 1, channel + 1);
    } else if i + 1 < CMD_BYTE && HandshakeAt(a, i, channel).End() <= PIF_RAM_LEN {
      ParseLooksAhead(a, b, HandshakeAt(a, i, channel).End(), channel + 1);
    }
  }

  ghost predicate WithinFrame(hs: seq<Handshake>) {
    forall j :: 0 <= j < |hs| ==> hs[j].End() <= PIF_RAM_LEN && hs[j].channel <= 4
  }

  lemma ParseWithinFrame(ram: Ram, i: nat, channel: nat)
    ensures WithinFrame(Parse(ram, i, channel))
  {
    ParseInOrder(ram, i, channel);
    hide Parse;
  }

  // ----- answering

  /** What is plugged in. */
  datatype Ports = Ports(connected: seq<bool>, pakPresent: seq<bool>, controllers: seq<bv32>)

  predicate FourPorts(p: Ports) {
    |p.connected| == 4 && |p.pakPresent| == 4 && |p.controllers| == 4
  }

  /** A handshake's outcome: the "no device" flag, the reply bytes, and the save left behind. */
  datatype Outcome = Outcome(noDevice: bool, reply: seq<bv8>, save: Save)

  function NoDevice(save: Save): Outcome {
    Outcome(true, [], save)
  }

  function Replies(reply: seq<bv8>, save: Save): Outcome {
    Outcome(false, reply, save)
  }

  /** The reply region's share of an answer that may be longer than it. */
  function Fitted(data: seq<bv8>, rxLen: nat): (r: seq<bv8>)
    ensures |r| <= rxLen && |r| <= |data|
  {
    data[..Min(rxLen, |data|)]
  }

  /** A controller's packed state, most significant byte first. */
  function StateBytes(word: bv32): (b: seq<bv8>)
    ensures |b| == 4
  {
    [(word >> 24) as bv8, ((word >> 16) & 0xFF) as bv8, ((word >> 8) & 0xFF) as bv8, (word & 0xFF) as bv8]
  }

  /** The 32-byte-aligned Controller Pak address in two request bytes. */
  function PakAddress(hi: bv8, lo: bv8): (a: nat)
    ensures a % 32 == 0 && a <= hi as nat * 0x100 + lo as nat < a + 32
  {
    (hi as nat * 256 + lo as nat) / 32 * 32
  }

  /** A present pak answers with the CRC, an absent one with its complement. */
  function PakCrc(present: bool, block: seq<bv8>): bv8 {
    if present then Crc(block, |block|) else Crc(block, |block|) ^ 0xFF
  }

  function PakBlock(present: bool, save: Save, at: nat): (block: seq<bv8>)
    ensures |block| == 32
  {
    if present && save.kind == ControllerPak then BlockAt(save.store, at, 32) else seq(32, _ => 0)
  }

  function PakWritten(present: bool, save: Save, at: nat, block: seq<bv8>): Save {
    if present && save.kind == ControllerPak then save.(store := WithBlock(save.store, at, block)) else save
  }

  /** Controllers and their accessories, on channels 0 to 3. */
  function PortAnswer(word: bv32, pak: bool, tx: seq<bv8>, rxLen: nat, save: Save): (o: Outcome)
    requires tx != []
    ensures |o.reply| <= rxLen
  {
    var command := tx[0];
    if command == 0x00 || command == 0xFF then
      Replies(if rxLen >= 3 then [0x05, 0x00, if pak then 0x01 else 0x02] else [], save)
    else if command == 0x01 then
      Replies(Fitted(StateBytes(word), rxLen), save)
    else if command == 0x02 && |tx| >= 3 then
      var block := PakBlock(pak, save, PakAddress(tx[1], tx[2]));
      Replies(Fitted(block + [PakCrc(pak, block)], rxLen), save)
    else if command == 0x03 && |tx| >= 35 then
      Replies(if rxLen >= 1 then [PakCrc(pak, tx[3..35])] else [],
              PakWritten(pak, save, PakAddress(tx[1], tx[2]), tx[3..35]))
    else NoDevice(save)
  }

  /** The cartridge EEPROM, on channel 4. */
  function CartAnswer(tx: seq<bv8>, rxLen: nat, save: Save): (o: Outcome)
    requires tx != []
    ensures |o.reply| <= rxLen
  {
    var command := tx[0];
    if save.kind != Eeprom then NoDevice(save)
    else if command == 0x00 || command == 0xFF then
      Replies(if rxLen >= 3 then [0x00, if |save.store| > 512 then 0xC0 else 0x80, 0x00] else [], save)
    else if command == 0x04 && |tx| >= 2 then
      Replies(Fitted(BlockAt(save.store, tx[1] as nat * 8, 8), rxLen), save)
    else if command == 0x05 && |tx| >= 10 then
      Replies(if rxLen >= 1 then [0x00] else [],
              save.(store := WithBlock(save.store, tx[1] as nat * 8, tx[2..10])))
    else NoDevice(save)
  }

  /** The answer to the bytes a channel sent: an empty port never answers, an empty request is
      answered with nothing. */
  function Answer(p: Ports, channel: nat, tx: seq<bv8>, rxLen: nat, save: Save): (o: Outcome)
    requires FourPorts(p) && channel <= 4
    ensures |o.reply| <= rxLen
  {
    if channel < 4 && !p.connected[channel] then NoDevice(save)
    else if tx == [] then Replies([], save)
    else if channel < 4 then PortAnswer(p.controllers[channel], p.pakPresent[channel], tx, rxLen, save)
    else CartAnswer(tx, rxLen, save)
  }

  // ----- parse, then run

  /** The bytes a handshake sends. */
  function Sent(ram: Ram, h: Handshake): seq<bv8>
    requires h.End() <= PIF_RAM_LEN
  {
    ram[h.Cmd()..h.Resp()]
  }

  /** Every handshake's outcome, each given the frame as it was sent and the save its predecessors
      left. */
  function Outcomes(ram: Ram, hs: seq<Handshake>, p: Ports, save: Save): (os: seq<Outcome>)
    requires FourPorts(p) && WithinFrame(hs)
    ensures |os| == |hs| && forall j :: 0 <= j < |os| ==> |os[j].reply| <= hs[j].rxLen
    decreases |hs|
  {
    if hs == [] then []
    else
      var o := Answer(p, hs[0].channel, Sent(ram, hs[0]), hs[0].rxLen, save);
      [o] + Outcomes(ram, hs[1..], p, o.save)
  }

  lemma TailInOrder(hs: seq<Handshake>, from: nat, channel: nat)
    requires hs != [] && InOrder(hs, from, channel)
    ensures InOrder(hs[1..], hs[0].End(), channel)
  {
  }

  function FinalSave(os: seq<Outcome>, save: Save): Save {
    if os == [] then save else os[|os| - 1].save
  }

  /** One outcome laid over the frame. */
  function Applied(ram: Ram, h: Handshake, o: Outcome): (r: Ram)
    ensures forall k :: 0 <= k < PIF_RAM_LEN ==> r[k] == AppliedAt(ram, h, o, k)
  {
    seq(PIF_RAM_LEN, k requires 0 <= k < PIF_RAM_LEN => AppliedAt(ram, h, o, k))
  }

  function AppliedAt(ram: Ram, h: Handshake, o: Outcome, k: nat): bv8
    requires k < PIF_RAM_LEN
  {
    if InReply(k, h, o) then o.reply[k - h.Resp()]
    else if k == h.RxByte() && o.noDevice then ram[k] | RX_NO_DEVICE
    else ram[k]
  }

  /** Byte k belongs to the reply handshake h was given. */
  predicate InReply(k: nat, h: Handshake, o: Outcome) {
    h.Resp() <= k < h.Resp() + |o.reply|
  }

  function Overlaid(ram: Ram, hs: seq<Handshake>, os: seq<Outcome>): Ram
    requires |hs| == |os|
    decreases |hs|
  {
    if hs == [] then ram else Overlaid(Applied(ram, hs[0], os[0]), hs[1..], os[1..])
  }

  /** A slice of what was sent is a slice of the frame. */
  lemma SentSlice(ram: seq<bv8>, from: nat, upTo: nat, a: nat, b: nat)
    requires from <= upTo <= |ram| && a <= b <= upTo - from
    ensures ram[from..upTo][a..b] == ram[from + a..from + b]
  {
    var sent := ram[from..upTo];
    forall k | 0 <= k < b - a
      ensures sent[a..b][k] == ram[from + a..from + b][k]
    {
    }
  }

  /** What is left to do: handshakes answered from the frame as it was sent, laid over `ram`. */
  function Run(ram: Ram, sent: Ram, hs: seq<Handshake>, p: Ports, save: Save): (Ram, Save)
    requires FourPorts(p) && WithinFrame(hs)
  {
    var os := Outcomes(sent, hs, p, save);
    (Overlaid(ram, hs, os), FinalSave(os, save))
  }

  /** Running a frame is running its first handshake and then the rest. */
  lemma RunStep(ram: Ram, sent: Ram, h: Handshake, rest: seq<Handshake>, p: Ports, save: Save)
    requires FourPorts(p) && WithinFrame([h] + rest) && WithinFrame(rest) && h.End() <= PIF_RAM_LEN && h.channel <= 4
    ensures
      var o := Answer(p, h.channel, Sent(sent, h), h.rxLen, save);
      Run(ram, sent, [h] + rest, p, save) == Run(Applied(ram, h, o), sent, rest, p, o.save)
  {
    var hs := [h] + rest;
    assert hs[0] == h && hs[1..] == rest;
    var o := Answer(p, h.channel, Sent(sent, h), h.rxLen, save);
    var os := Outcomes(sent, hs, p, save);
    assert os == [o] + Outcomes(sent, rest, p, o.save);
    assert os[1..] == Outcomes(sent, rest, p, o.save);
    hide Answer, Applied, Outcomes, Sent;
  }

  /** The request bit is consumed. */
  function Consumed(ram: Ram): Ram {
    ram[CMD_BYTE := ram[CMD_BYTE] & 0xFE]
  }

  /** The reference: parse the frame as it was sent, answer every handshake from those bytes, and lay
      the answers over it. */
  function Executed(ram: Ram, p: Ports, save: Save): (Ram, Save)
    requires FourPorts(p)
  {
    if ram[CMD_BYTE] & 0x01 == 0 then (ram, save)
    else
      ParseWithinFrame(ram, 0, 0);
      var after := Run(ram, ram, Parse(ram, 0, 0), p, save);
      (Consumed(after.0), after.1)
  }

  // ----- what execution may change

  ghost predicate Fits(hs: seq<Handshake>, os: seq<Outcome>) {
    |hs| == |os| && forall j :: 0 <= j < |hs| ==> |os[j].reply| <= hs[j].rxLen
  }

  /** Bytes before the first handshake are left alone. */
  lemma {:induction false} OverlayKeepsBefore(ram: Ram, hs: seq<Handshake>, os: seq<Outcome>, from: nat,
                                                channel: nat, k: nat)
    requires InOrder(hs, from, channel) && Fits(hs, os) && k < from && k < PIF_RAM_LEN
    ensures Overlaid(ram, hs, os)[k] == ram[k]
    decreases |hs|
  {
    if hs != [] {
      TailInOrder(hs, from, channel);
      OverlayKeepsBefore(Applied(ram, hs[0], os[0]), hs[1..], os[1..], hs[0].End(), channel, k);
    }
  }

  /** Bytes past what a handshake covers are untouched by it. */
  lemma AppliedKeepsAfter(ram: Ram, h: Handshake, o: Outcome, k: nat)
    requires |o.reply| <= h.rxLen && h.End() <= k < PIF_RAM_LEN
    ensures Applied(ram, h, o)[k] == ram[k]
  {
  }

  /** Every reply arrives as it was given, the later handshakes notwithstanding ... */
  lemma {:induction false} ReplyArrives(ram: Ram, hs: seq<Handshake>, os: seq<Outcome>, from: nat,
                                          channel: nat, j: nat, k: nat)
    requires InOrder(hs, from, channel) && Fits(hs, os) && j < |hs| && k < |os[j].reply|
    ensures hs[j].Resp() + k < PIF_RAM_LEN && Overlaid(ram, hs, os)[hs[j].Resp() + k] == os[j].reply[k]
    decreases |hs|
  {
    TailInOrder(hs, from, channel);
    var next := Applied(ram, hs[0], os[0]);
    if j == 0 {
      OverlayKeepsBefore(next, hs[1..], os[1..], hs[0].End(), channel, hs[0].Resp() + k);
    } else {
      ReplyArrives(next, hs[1..], os[1..], hs[0].End(), channel, j - 1, k);
    }
  }

  /** ... and every "no device" flag is set on its own handshake's RX byte. */
  lemma {:induction false} FlagArrives(ram: Ram, hs: seq<Handshake>, os: seq<Outcome>, from: nat, channel: nat, j: nat)
    requires InOrder(hs, from, channel) && Fits(hs, os) && j < |hs|
    ensures Overlaid(ram, hs, os)[hs[j].RxByte()]
      == if os[j].noDevice then ram[hs[j].RxByte()] | RX_NO_DEVICE else ram[hs[j].RxByte()]
    decreases |hs|
  {
    TailInOrder(hs, from, channel);
    var next := Applied(ram, hs[0], os[0]);
    if j == 0 {
      OverlayKeepsBefore(next, hs[1..], os[1..], hs[0].End(), channel, hs[0].RxByte());
    } else {
      FlagArrives(next, hs[1..], os[1..], hs[0].End(), channel, j - 1);
      AppliedKeepsAfter(ram, hs[0], os[0], hs[j].RxByte());
    }
  }

  /** Nothing else changes: a byte that is in no reply and is no handshake's RX byte keeps its value. */
  lemma {:induction false} OverlayTouchesNothingElse(ram: Ram, hs: seq<Handshake>, os: seq<Outcome>, k: nat)
    requires |hs| == |os| && k < PIF_RAM_LEN
    requires forall j :: 0 <= j < |hs| ==> !InReply(k, hs[j], os[j]) && k != hs[j].RxByte()
    ensures Overlaid(ram, hs, os)[k] == ram[k]
    decreases |hs|
  {
    if hs != [] {
      assert !InReply(k, hs[0], os[0]) && k != hs[0].RxByte();
      forall j | 0 <= j < |hs[1..]|
        ensures !InReply(k, hs[1..][j], os[1..][j]) && k != hs[1..][j].RxByte()
      {
        assert hs[1..][j] == hs[j + 1] && os[1..][j] == os[j + 1];
      }
      OverlayTouchesNothingElse(Applied(ram, hs[0], os[0]), hs[1..], os[1..], k);
    }
  }

  ghost predicate InSomeReply(k: nat, hs: seq<Handshake>) {
    exists j :: 0 <= j < |hs| && hs[j].Resp() <= k < hs[j].End()
  }

  ghost predicate IsSomeRxByte(k: nat, hs: seq<Handshake>) {
    exists j :: 0 <= j < |hs| && k == hs[j].RxByte()
  }

  lemma OverlayFrame(ram: Ram, hs: seq<Handshake>, os: seq<Outcome>, k: nat)
    requires InOrder(hs, 0, 0) && Fits(hs, os) && k < PIF_RAM_LEN
    ensures
      var over := Overlaid(ram, hs, os);
      over[k] == ram[k] || InSomeReply(k, hs) ||
      (over[k] == ram[k] | RX_NO_DEVICE && IsSomeRxByte(k, hs))
    ensures IsSomeRxByte(k, hs) ==> k < CMD_BYTE
  {
    hide Overlaid;
    if IsSomeRxByte(k, hs) {
      var j :| 0 <= j < |hs| && k == hs[j].RxByte();
      FlagArrives(ram, hs, os, 0, 0, j);
    } else if exists j :: 0 <= j < |hs| && InReply(k, hs[j], os[j]) {
      var j :| 0 <= j < |hs| && InReply(k, hs[j], os[j]);
      assert hs[j].Resp() <= k < hs[j].End();
    } else {
      OverlayTouchesNothingElse(ram, hs, os, k);
    }
  }

  /** The frame of execution, for every 64-byte RAM: a byte changes only inside a declared reply
      region, or by gaining bit 7 as an RX byte, or by losing bit 0 as the command byte. */
  lemma ExecutionFrame(ram: Ram, p: Ports, save: Save, k: nat)
    requires FourPorts(p) && k < PIF_RAM_LEN
    ensures
      var hs, after := Parse(ram, 0, 0), Executed(ram, p, save).0;
      after[k] == ram[k] || InSomeReply(k, hs) ||
      (after[k] == ram[k] | RX_NO_DEVICE && IsSomeRxByte(k, hs)) ||
      (after[k] == ram[k] & 0xFE && k == CMD_BYTE)
  {
    hide Parse, Outcomes, Overlaid, InOrder, WithinFrame, FinalSave, FourPorts, InSomeReply, IsSomeRxByte;
    if ram[CMD_BYTE] & 0x01 != 0 {
      ParseInOrder(ram, 0, 0);
      var hs := Parse(ram, 0, 0);
      ParseWithinFrame(ram, 0, 0);
      var os := Outcomes(ram, hs, p, save);
      OverlayFrame(ram, hs, os, k);
    }
  }

  // ----- what a game reads back

  /** Writing a Controller Pak block and reading it again through a connected port with the pak in
      returns the block and the checksum the write was answered with, exactly when whatever falls
      past the pak's end was zero. */
  lemma PakRoundTrip(word: bv32, save: Save, write: seq<bv8>, read: seq<bv8>, rxLen: nat)
    requires save.kind == ControllerPak
    requires |write| >= 35 && write[0] == 0x03
    requires |read| >= 3 && read[0] == 0x02 && read[1] == write[1] && read[2] == write[2] && rxLen >= 33
    ensures
      var after := PortAnswer(word, true, write, 1, save);
      var reply := PortAnswer(word, true, read, rxLen, after.save).reply;
      var at, data := PakAddress(write[1], write[2]), write[3..35];
      reply == data + after.reply <==> forall i :: 0 <= i < |data| && at + i >= |save.store| ==> data[i] == 0
  {
    var at, data := PakAddress(write[1], write[2]), write[3..35];
    hide PakAddress, Crc;
    BlockReadsBack(save.store, at, data);
    var after := PortAnswer(word, true, write, 1, save);
    var block := BlockAt(after.save.store, at, 32);
    var reply := PortAnswer(word, true, read, rxLen, after.save).reply;
    assert reply == block + [PakCrc(true, block)];
    assert after.reply == [PakCrc(true, data)];
    assert reply[..32] == block && (data + after.reply)[..32] == data;
  }

  /** Writing an EEPROM block and reading it again returns it exactly when the part past the store's
      end, which a 4 kbit part does not have, was zero. */
  lemma EepromRoundTrip(save: Save, write: seq<bv8>, read: seq<bv8>, rxLen: nat)
    requires save.kind == Eeprom
    requires |write| >= 10 && write[0] == 0x05
    requires |read| >= 2 && read[0] == 0x04 && read[1] == write[1] && rxLen >= 8
    ensures
      var after := CartAnswer(write, 1, save);
      var reply := CartAnswer(read, rxLen, after.save).reply;
      reply == write[2..10] <==>
        forall i :: 0 <= i < |write[2..10]| && write[1] as nat * 8 + i >= |save.store| ==> write[2..10][i] == 0
  {
    BlockReadsBack(save.store, write[1] as nat * 8, write[2..10]);
  }
}
