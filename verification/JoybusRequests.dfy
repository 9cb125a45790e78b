/** A frame from the game's side: what it lays out is what the PIF parses, and what each request gets
    back is found where its reply was asked for. */
module JoybusRequests {
  import opened MachineWords
  import opened SaveBlocks
  import opened JoybusCrc
  import opened JoybusFrame

  // ----- laying a frame out

  /** One piece of a frame: an empty channel, a filler byte, or a request with room for its reply. */
  datatype Item =
    | SkipChannel
    | Filler
    | Request(txByte: bv8, rxByte: bv8, tx: seq<bv8>, room: seq<bv8>)

  /** The length bytes say how much is sent and how much is wanted back. */
  predicate WellLaid(item: Item) {
    item.Request? ==>
      item.txByte as nat == |item.tx| && 1 <= |item.tx| < 64 && item.rxByte as nat == |item.room| && |item.room| < 64
  }

  function Laid(item: Item): seq<bv8> {
    match item
    case SkipChannel => [0x00]
    case Filler => [0xFF]
    case Request(txByte, rxByte, tx, room) => [txByte, rxByte] + tx + room
  }

  function Frame(items: seq<Item>): seq<bv8> {
    if items == [] then [] else Laid(items[0]) + Frame(items[1..])
  }

  /** The channels the items take up. */
  function Channels(items: seq<Item>): nat {
    if items == [] then 0 else (if items[0].Filler? then 0 else 1) + Channels(items[1..])
  }

  /** The requests, each on the channel its turn comes to. */
  function Requested(items: seq<Item>, at: nat, channel: nat): seq<Handshake> {
    if items == [] then []
    else
      var rest := items[1..];
      match items[0]
      case SkipChannel => Requested(rest, at + 1, channel + 1)
      case Filler => Requested(rest, at + 1, channel)
      case Request(_, _, tx, room) =>
        [Handshake(channel, at, |tx|, |room|)] + Requested(rest, at + 2 + |tx| + |room|, channel + 1)
  }

  lemma LengthByte(b: bv8)
    requires 1 <= b as nat < 64
    ensures Length(b) == b as nat && !IsControl(b)
  {
  }

  lemma RoomByte(b: bv8)
    requires b as nat < 64
    ensures Length(b) == b as nat
  {
  }

  /** The PIF parses a frame into the requests it was laid out from. */
  lemma {:induction false} ParseReadsLayout(ram: Ram, items: seq<Item>, i: nat, channel: nat)
    requires forall item :: item in items ==> WellLaid(item)
    requires i + |Frame(items)| < CMD_BYTE && channel + Channels(items) <= 5
    requires ram[i..i + |Frame(items)|] == Frame(items) && ram[i + |Frame(items)|] == 0xFE
    ensures Parse(ram, i, channel) == Requested(items, i, channel)
    decreases |items|
  {
    hide Parse, Requested, Laid, WellLaid, Frame, Channels;
    if channel > 4 || items == [] {
      NoMore(ram, items, i, channel);
    } else {
      var item, rest := items[0], items[1..];
      ItemsStep(items);
      assert WellLaid(item);
      FrameTail(ram, item, Frame(rest), i);
      RequestedStep(items, i, channel);
      OneItem(ram, item, i, channel);
      ParseReadsLayout(ram, rest, i + |Laid(item)|, if item.Filler? then channel else channel + 1);
    }
  }

  /** Past the last channel, or at the end byte, the parser stops. */
  lemma NoMore(ram: Ram, items: seq<Item>, i: nat, channel: nat)
    requires channel > 4 || items == []
    requires i + |Frame(items)| < CMD_BYTE && channel + Channels(items) <= 5 && ram[i + |Frame(items)|] == 0xFE
    ensures Parse(ram, i, channel) == [] == Requested(items, i, channel)
  {
    ParseCases(ram, i, channel);
    NoRequests(items, i, channel);
  }

  lemma ItemsStep(items: seq<Item>)
    requires items != []
    ensures Frame(items) == Laid(items[0]) + Frame(items[1..])
    ensures Channels(items) == (if items[0].Filler? then 0 else 1) + Channels(items[1..])
    ensures 0 < |Laid(items[0])|
  {
  }

  lemma RequestedStep(items: seq<Item>, at: nat, channel: nat)
    requires items != []
    ensures
      var item := items[0];
      var rest := Requested(items[1..], at + |Laid(item)|, if item.Filler? then channel else channel + 1);
      Requested(items, at, channel) ==
        if item.Request? then [Handshake(channel, at, |item.tx|, |item.room|)] + rest else rest
  {
  }

  /** The parser passes one piece of the frame. */
  lemma OneItem(ram: Ram, item: Item, i: nat, channel: nat)
    requires WellLaid(item) && channel <= 4 && i + |Laid(item)| < CMD_BYTE
    requires ram[i..i + |Laid(item)|] == Laid(item)
    ensures
      var rest := Parse(ram, i + |Laid(item)|, if item.Filler? then channel else channel + 1);
      Parse(ram, i, channel) ==
        if item.Request? then [Handshake(channel, i, |item.tx|, |item.room|)] + rest else rest
  {
    assert ram[i] == Laid(item)[0];
    ParseCases(ram, i, channel);
    hide Parse, HandshakeAt, IsControl;
    if item.Request? {
      assert ram[i + 1] == Laid(item)[1];
      LengthByte(item.txByte);
      RoomByte(item.rxByte);
      hide Length;
      HandshakeLaid(ram, i, channel, item.txByte, item.rxByte);
    }
  }

  lemma HandshakeLaid(ram: Ram, i: nat, channel: nat, txByte: bv8, rxByte: bv8)
    requires i + 1 < PIF_RAM_LEN && ram[i] == txByte && ram[i + 1] == rxByte
    ensures HandshakeAt(ram, i, channel) == Handshake(channel, i, Length(txByte), Length(rxByte))
  {
  }

  lemma FrameTail(ram: Ram, item: Item, rest: seq<bv8>, i: nat)
    requires i + |Laid(item)| + |rest| <= PIF_RAM_LEN
    requires ram[i..i + |Laid(item)| + |rest|] == Laid(item) + rest
    ensures ram[i..i + |Laid(item)|] == Laid(item)
    ensures ram[i + |Laid(item)|..i + |Laid(item)| + |rest|] == rest
  {
    var n := |Laid(item)|;
    var whole := ram[i..i + n + |rest|];
    assert whole[..n] == ram[i..i + n] && whole[n..] == ram[i + n..i + n + |rest|];
    assert (Laid(item) + rest)[..n] == Laid(item) && (Laid(item) + rest)[n..] == rest;
  }

  lemma {:induction false} NoRequests(items: seq<Item>, at: nat, channel: nat)
    requires Channels(items) == 0
    ensures Requested(items, at, channel) == []
    decreases |items|
  {
    if items != [] {
      NoRequests(items[1..], at + 1, channel);
    }
  }

  // ----- delivery

  /** The save as the handshakes before the j-th leave it. */
  function SaveBefore(ram: Ram, hs: seq<Handshake>, p: Ports, save: Save, j: nat): Save
    requires FourPorts(p) && WithinFrame(hs) && j < |hs|
  {
    FinalSave(Outcomes(ram, hs, p, save)[..j], save)
  }

  /** Each handshake is answered from what it sent and the save as it then stands. */
  lemma {:induction false} OutcomeIsAnswer(ram: Ram, hs: seq<Handshake>, p: Ports, save: Save, j: nat)
    requires FourPorts(p) && WithinFrame(hs) && j < |hs|
    ensures Outcomes(ram, hs, p, save)[j] ==
      Answer(p, hs[j].channel, Sent(ram, hs[j]), hs[j].rxLen, SaveBefore(ram, hs, p, save, j))
    decreases |hs|
  {
    var o := Answer(p, hs[0].channel, Sent(ram, hs[0]), hs[0].rxLen, save);
    var os, rest := Outcomes(ram, hs, p, save), Outcomes(ram, hs[1..], p, o.save);
    assert os == [o] + rest;
    hide Answer, Sent;
    if j > 0 {
      OutcomeIsAnswer(ram, hs[1..], p, o.save, j - 1);
      assert os[..j] == [o] + rest[..j - 1];
    }
  }

  /** The frame asks for the j-th handshake, and this is what it sends and what it leads to. */
  ghost predicate Asked(ram: Ram, p: Ports, save: Save, h: Handshake, tx: seq<bv8>, before: Save) {
    FourPorts(p) && ram[CMD_BYTE] & 0x01 != 0 && WithinFrame(Parse(ram, 0, 0)) &&
    exists j :: 0 <= j < |Parse(ram, 0, 0)| && h == Parse(ram, 0, 0)[j] && tx == Sent(ram, h) &&
      before == SaveBefore(ram, Parse(ram, 0, 0), p, save, j)
  }

  /** A handshake's answer is found in its reply region, its flag in its RX byte; only the command
      byte, where a reply runs into it, loses its lowest bit. */
  lemma AnswerArrives(ram: Ram, p: Ports, save: Save, h: Handshake, tx: seq<bv8>, before: Save, k: nat)
    requires Asked(ram, p, save, h, tx, before)
    ensures h.channel <= 4 && h.RxByte() < CMD_BYTE && h.End() <= PIF_RAM_LEN && |tx| == h.txLen
    ensures
      var o, after := Answer(p, h.channel, tx, h.rxLen, before), Executed(ram, p, save).0;
      (k < |o.reply| && h.Resp() + k < CMD_BYTE ==> after[h.Resp() + k] == o.reply[k]) &&
      after[h.RxByte()] == if o.noDevice then ram[h.RxByte()] | 0x80 else ram[h.RxByte()]
  {
    var j := Locate(ram, p, save, h, tx, before);
    var hs, os := Parse(ram, 0, 0), Outcomes(ram, Parse(ram, 0, 0), p, save);
    hide Parse, Answer, Outcomes, WithinFrame, Sent, Executed, Overlaid, InOrder, Asked;
    BeforeCommand(ram, p, save, h.RxByte());
    FlagArrives(ram, hs, os, 0, 0, j);
    if k < |os[j].reply| && h.Resp() + k < CMD_BYTE {
      BeforeCommand(ram, p, save, h.Resp() + k);
      ReplyArrives(ram, hs, os, 0, 0, j, k);
    }
  }

  /** Up to the command byte the executed frame is the overlay. */
  lemma BeforeCommand(ram: Ram, p: Ports, save: Save, k: nat)
    requires FourPorts(p) && ram[CMD_BYTE] & 0x01 != 0 && WithinFrame(Parse(ram, 0, 0)) && k < CMD_BYTE
    ensures
      var hs := Parse(ram, 0, 0);
      Executed(ram, p, save).0[k] == Overlaid(ram, hs, Outcomes(ram, hs, p, save))[k]
  {
    hide Parse, Outcomes, Overlaid, FinalSave, WithinFrame, FourPorts;
  }

  /** Which handshake of the frame it is. */
  lemma Locate(ram: Ram, p: Ports, save: Save, h: Handshake, tx: seq<bv8>, before: Save) returns (j: nat)
    requires Asked(ram, p, save, h, tx, before)
    ensures
      var hs := Parse(ram, 0, 0);
      FourPorts(p) && ram[CMD_BYTE] & 0x01 != 0 && WithinFrame(hs) && InOrder(hs, 0, 0) && j < |hs| && h == hs[j] &&
      h.channel <= 4 && h.RxByte() < CMD_BYTE && h.End() <= PIF_RAM_LEN && |tx| == h.txLen &&
      Outcomes(ram, hs, p, save)[j] == Answer(p, h.channel, tx, h.rxLen, before)
  {
    var hs := Parse(ram, 0, 0);
    j :| 0 <= j < |hs| && h == hs[j] && tx == Sent(ram, h) && before == SaveBefore(ram, hs, p, save, j);
    ParseInOrder(ram, 0, 0);
    hide Parse, Answer, Asked;
    OutcomeIsAnswer(ram, hs, p, save, j);
    hide Outcomes, SaveBefore;
  }

  /** Four bytes, the most significant first, as the word a game reads there. */
  function Joined(a: bv8, b: bv8, c: bv8, d: bv8): bv32 {
    (a as bv32 << 24) | (b as bv32 << 16) | (c as bv32 << 8) | d as bv32
  }

  function WordAt(ram: Ram, at: nat): bv32
    requires at + 4 <= PIF_RAM_LEN
  {
    Joined(ram[at], ram[at + 1], ram[at + 2], ram[at + 3])
  }

  lemma StateBytesJoin(word: bv32)
    ensures
      var b := StateBytes(word);
      Joined(b[0], b[1], b[2], b[3]) == word
  {
  }

  /** Polling a connected controller: the word read from the reply is its state. */
  lemma PollReadsController(ram: Ram, p: Ports, save: Save, h: Handshake, tx: seq<bv8>, before: Save)
    requires Asked(ram, p, save, h, tx, before) && h.channel < 4 && p.connected[h.channel]
    requires tx != [] && tx[0] == 0x01 && h.rxLen >= 4 && h.Resp() + 4 <= CMD_BYTE
    ensures WordAt(Executed(ram, p, save).0, h.Resp()) == p.controllers[h.channel]
    ensures Executed(ram, p, save).0[h.RxByte()] == ram[h.RxByte()]
  {
    forall k | 0 <= k < 4
      ensures Executed(ram, p, save).0[h.Resp() + k] == StateBytes(p.controllers[h.channel])[k]
    {
      AnswerArrives(ram, p, save, h, tx, before, k);
      hide Asked, Executed, StateBytes;
    }
    AnswerArrives(ram, p, save, h, tx, before, 0);
    StateBytesJoin(p.controllers[h.channel]);
    hide Asked, Executed, StateBytes;
  }

  /** Identifying a connected controller: a standard pad, with a pak in it or without. */
  lemma IdentifyReadsController(ram: Ram, p: Ports, save: Save, h: Handshake, tx: seq<bv8>, before: Save)
    requires Asked(ram, p, save, h, tx, before) && h.channel < 4 && p.connected[h.channel]
    requires tx != [] && (tx[0] == 0x00 || tx[0] == 0xFF) && h.rxLen >= 3 && h.Resp() + 3 <= CMD_BYTE
    ensures
      var after := Executed(ram, p, save).0;
      after[h.Resp()] == 0x05 && after[h.Resp() + 1] == 0x00 &&
      after[h.Resp() + 2] == (if p.pakPresent[h.channel] then 1 else 2) && after[h.RxByte()] == ram[h.RxByte()]
  {
    assert FourPorts(p);
    hide Asked, Executed, Answer, FourPorts;
    IdentityAnswer(p, h.channel, tx, h.rxLen, before);
    AnswerArrives(ram, p, save, h, tx, before, 0);
    AnswerArrives(ram, p, save, h, tx, before, 1);
    AnswerArrives(ram, p, save, h, tx, before, 2);
  }

  lemma IdentityAnswer(p: Ports, channel: nat, tx: seq<bv8>, rxLen: nat, save: Save)
    requires FourPorts(p) && channel < 4 && p.connected[channel] && rxLen >= 3
    requires tx != [] && (tx[0] == 0x00 || tx[0] == 0xFF)
    ensures Answer(p, channel, tx, rxLen, save) ==
      Replies([0x05, 0x00, if p.pakPresent[channel] then 0x01 else 0x02], save)
  {
  }

  /** A request the device on a channel understands. */
  predicate Understood(channel: nat, tx: seq<bv8>, kind: SaveKind)
    requires tx != []
  {
    if channel < 4 then
      tx[0] in {0x00, 0xFF, 0x01} || (tx[0] == 0x02 && 3 <= |tx|) || (tx[0] == 0x03 && 35 <= |tx|)
    else
      kind == Eeprom && (tx[0] in {0x00, 0xFF} || (tx[0] == 0x04 && 2 <= |tx|) || (tx[0] == 0x05 && 10 <= |tx|))
  }

  /** The "no device" flag, bit 7 of the RX byte, is raised on an empty port and for a request nobody
      understands, and on no other occasion. */
  lemma FlagRaisedIff(ram: Ram, p: Ports, save: Save, h: Handshake, tx: seq<bv8>, before: Save)
    requires Asked(ram, p, save, h, tx, before) && h.channel <= 4
    ensures h.RxByte() < CMD_BYTE
    ensures
      Executed(ram, p, save).0[h.RxByte()] ==
        if (h.channel < 4 && !p.connected[h.channel]) || (tx != [] && !Understood(h.channel, tx, before.kind))
        then ram[h.RxByte()] | 0x80 else ram[h.RxByte()]
  {
    AnswerArrives(ram, p, save, h, tx, before, 0);
    hide Asked, Executed, StateBytes, PakBlock, PakCrc, PakWritten;
  }

  /** Reading a pak: the 32 bytes at the aligned address, most significant byte first in the request,
      then their checksum; without a pak, zeros and the checksum's complement. */
  lemma ReadReadsPak(ram: Ram, p: Ports, save: Save, h: Handshake, tx: seq<bv8>, before: Save, k: nat)
    requires Asked(ram, p, save, h, tx, before) && h.channel < 4 && p.connected[h.channel]
    requires |tx| >= 3 && tx[0] == 0x02 && k < h.rxLen && k < 33 && h.Resp() + k < CMD_BYTE
    ensures
      var at := PakAddress(tx[1], tx[2]);
      var pak := p.pakPresent[h.channel] && before.kind == ControllerPak;
      var block := if pak then BlockAt(before.store, at, 32) else seq(32, _ => 0);
      Executed(ram, p, save).0[h.Resp() + k] ==
        if k < 32 then block[k]
        else if p.pakPresent[h.channel] then Crc(block, 32)
        else !Crc(block, 32)
  {
    AnswerArrives(ram, p, save, h, tx, before, k);
    ComplementIsXor(Crc(PakBlock(p.pakPresent[h.channel], before, PakAddress(tx[1], tx[2])), 32));
    hide Asked, Executed, Crc, PakAddress, BlockAt;
  }

  lemma ComplementIsXor(crc: bv8)
    ensures crc ^ 0xFF == !crc
  {
  }

  /** Writing a pak is acknowledged with the checksum of what was sent, complemented without a pak;
      the block goes to the aligned address, if there is a pak to take it. */
  lemma WriteStoresInPak(ram: Ram, p: Ports, save: Save, h: Handshake, tx: seq<bv8>, before: Save)
    requires Asked(ram, p, save, h, tx, before) && h.channel < 4 && p.connected[h.channel]
    requires |tx| >= 35 && tx[0] == 0x03 && h.rxLen >= 1 && h.Resp() < CMD_BYTE
    ensures
      var data := tx[3..35];
      Executed(ram, p, save).0[h.Resp()] ==
        (if p.pakPresent[h.channel] then Crc(data, 32) else !Crc(data, 32)) &&
      Answer(p, h.channel, tx, h.rxLen, before).save ==
        if p.pakPresent[h.channel] && before.kind == ControllerPak
        then Save(ControllerPak, WithBlock(before.store, PakAddress(tx[1], tx[2]), data)) else before
  {
    assert FourPorts(p);
    hide Asked, Executed, Answer, Crc, PakAddress, WithBlock, FourPorts;
    AnswerArrives(ram, p, save, h, tx, before, 0);
    WriteAnswer(p, h.channel, tx, h.rxLen, before);
  }

  lemma WriteAnswer(p: Ports, channel: nat, tx: seq<bv8>, rxLen: nat, save: Save)
    requires FourPorts(p) && channel < 4 && p.connected[channel]
    requires |tx| >= 35 && tx[0] == 0x03 && rxLen >= 1
    ensures
      var o, data := Answer(p, channel, tx, rxLen, save), tx[3..35];
      o.reply == [if p.pakPresent[channel] then Crc(data, 32) else !Crc(data, 32)] &&
      o.save ==
        if p.pakPresent[channel] && save.kind == ControllerPak
        then Save(ControllerPak, WithBlock(save.store, PakAddress(tx[1], tx[2]), data)) else save
  {
    ComplementIsXor(Crc(tx[3..35], 32));
    hide Crc, PakAddress, WithBlock;
  }

  /** The cartridge's EEPROM: a 4 or 16 kbit part by its size, its blocks eight bytes apart, and a
      write acknowledged with zero. */
  lemma EepromAnswers(ram: Ram, p: Ports, save: Save, h: Handshake, tx: seq<bv8>, before: Save, k: nat)
    requires Asked(ram, p, save, h, tx, before) && h.channel == 4 && before.kind == Eeprom
    requires tx != [] && k < h.rxLen && h.Resp() + k < CMD_BYTE
    ensures
      var after := Executed(ram, p, save).0;
      ((tx[0] == 0x00 || tx[0] == 0xFF) && h.rxLen >= 3 && k < 3 ==>
        after[h.Resp() + k] == if k != 1 then 0 else if |before.store| <= 512 then 0x80 else 0xC0) &&
      (tx[0] == 0x04 && |tx| >= 2 && k < 8 ==>
        var i := 8 * tx[1] as nat + k;
        after[h.Resp() + k] == if i < |before.store| then before.store[i] else 0) &&
      (tx[0] == 0x05 && |tx| >= 10 && k == 0 ==> after[h.Resp() + k] == 0)
  {
    hide Asked, Executed;
    AnswerArrives(ram, p, save, h, tx, before, k);
    EepromReplies(tx, h.rxLen, before, k);
    hide CartAnswer;
  }

  lemma EepromReplies(tx: seq<bv8>, rxLen: nat, save: Save, k: nat)
    requires save.kind == Eeprom && tx != [] && k < rxLen
    ensures
      var reply := CartAnswer(tx, rxLen, save).reply;
      ((tx[0] == 0x00 || tx[0] == 0xFF) && rxLen >= 3 && k < 3 ==>
        k < |reply| && reply[k] == if k != 1 then 0 else if |save.store| <= 512 then 0x80 else 0xC0) &&
      (tx[0] == 0x04 && |tx| >= 2 && k < 8 ==>
        var i := 8 * tx[1] as nat + k;
        k < |reply| && reply[k] == if i < |save.store| then save.store[i] else 0) &&
      (tx[0] == 0x05 && |tx| >= 10 && k == 0 ==> k < |reply| && reply[k] == 0)
  {
  }

  /** What an EEPROM write leaves: its eight bytes where a read of the same block looks for them. */
  lemma EepromStores(p: Ports, tx: seq<bv8>, rxLen: nat, before: Save, i: nat)
    requires FourPorts(p) && |tx| >= 10 && tx[0] == 0x05 && before.kind == Eeprom && i < |before.store|
    ensures
      var after := Answer(p, 4, tx, rxLen, before).save;
      after.kind == Eeprom && |after.store| == |before.store| &&
      after.store[i] == if 8 * tx[1] as nat <= i < 8 * tx[1] as nat + 8 then tx[2 + i - 8 * tx[1] as nat]
                        else before.store[i]
  {
  }

  /** A frame that asks for nothing is left alone; one that asks loses its request, bit 0 of the command
      byte. */
  lemma RequestIsConsumed(ram: Ram, p: Ports, save: Save)
    requires FourPorts(p)
    ensures ram[CMD_BYTE] & 0x01 == 0 ==> Executed(ram, p, save) == (ram, save)
    ensures Executed(ram, p, save).0[CMD_BYTE] & 0x01 == 0
  {
    RequestBit(if ram[CMD_BYTE] & 0x01 == 0 then ram[CMD_BYTE] else
      ParseWithinFrame(ram, 0, 0);
      Run(ram, ram, Parse(ram, 0, 0), p, save).0[CMD_BYTE]);
    hide Run, Parse, WithinFrame;
  }

  lemma RequestBit(b: bv8)
    ensures (b & 0xFE) & 0x01 == 0
  {
  }

  /** No handshake of the frame starts after this one. */
  predicate IsLast(ram: Ram, h: Handshake) {
    forall g :: g in Parse(ram, 0, 0) ==> g.at <= h.at
  }

  /** The frame's last handshake leaves the save. */
  lemma SaveIsLeft(ram: Ram, p: Ports, save: Save, h: Handshake, tx: seq<bv8>, before: Save)
    requires Asked(ram, p, save, h, tx, before) && h.channel <= 4 && IsLast(ram, h)
    ensures Executed(ram, p, save).1 == Answer(p, h.channel, tx, h.rxLen, before).save
  {
    hide Parse, Answer, Outcomes, WithinFrame, Sent, Executed, InOrder, IsLast, Run, Asked;
    var j := Locate(ram, p, save, h, tx, before);
    LastInOrder(ram, h, j);
    LastSave(ram, p, save);
  }

  lemma LastInOrder(ram: Ram, h: Handshake, j: nat)
    requires IsLast(ram, h) && InOrder(Parse(ram, 0, 0), 0, 0) && j < |Parse(ram, 0, 0)| && Parse(ram, 0, 0)[j] == h
    ensures j == |Parse(ram, 0, 0)| - 1
  {
    hide Parse;
    var hs := Parse(ram, 0, 0);
    assert hs[|hs| - 1] in hs;
  }

  lemma LastSave(ram: Ram, p: Ports, save: Save)
    requires FourPorts(p) && ram[CMD_BYTE] & 0x01 != 0 && WithinFrame(Parse(ram, 0, 0))
    ensures Executed(ram, p, save).1 == FinalSave(Outcomes(ram, Parse(ram, 0, 0), p, save), save)
  {
    hide Parse, Outcomes, Overlaid, FinalSave, WithinFrame, FourPorts;
  }

  /** The frame's last request writes a block to the pak in its port. */
  ghost predicate WritesPak(ram: Ram, p: Ports, save: Save, h: Handshake, tx: seq<bv8>, before: Save) {
    Asked(ram, p, save, h, tx, before) && IsLast(ram, h) &&
    h.channel < 4 && p.connected[h.channel] && p.pakPresent[h.channel] && before.kind == ControllerPak &&
    |tx| >= 35 && tx[0] == 0x03 && h.rxLen >= 1 && h.Resp() < CMD_BYTE
  }

  /** A request reads the pak in its port. */
  ghost predicate ReadsPak(ram: Ram, p: Ports, save: Save, h: Handshake, tx: seq<bv8>, before: Save) {
    Asked(ram, p, save, h, tx, before) && h.channel < 4 && p.connected[h.channel] && p.pakPresent[h.channel] &&
    |tx| >= 3 && tx[0] == 0x02
  }

  lemma WriteIsKept(ram: Ram, p: Ports, save: Save, h: Handshake, tx: seq<bv8>, before: Save)
    requires WritesPak(ram, p, save, h, tx, before)
    ensures FourPorts(p) && |tx| >= 35 && h.Resp() < CMD_BYTE
    ensures Executed(ram, p, save).1 ==
      Save(ControllerPak, WithBlock(before.store, PakAddress(tx[1], tx[2]), tx[3..35]))
    ensures Executed(ram, p, save).0[h.Resp()] == Crc(tx[3..35], 32)
  {
    assert FourPorts(p);
    hide Asked, Executed, Answer, Crc, PakAddress, WithBlock, Parse;
    AnswerArrives(ram, p, save, h, tx, before, 0);
    SaveIsLeft(ram, p, save, h, tx, before);
    WriteStoresInPak(ram, p, save, h, tx, before);
  }

  /** What a game writes to its pak in one frame it reads from it in another, checksum included, as far
      as the pak reaches. */
  lemma PakKeepsWhatIsWritten(write: Ram, read: Ram, p: Ports, save: Save, after: Save, w: Handshake,
                              r: Handshake, wtx: seq<bv8>, rtx: seq<bv8>, before: Save, k: nat)
    requires WritesPak(write, p, save, w, wtx, before) && FourPorts(p) && after == Executed(write, p, save).1
    requires ReadsPak(read, p, after, r, rtx, after) && |wtx| >= 35 && |rtx| >= 3 && rtx[1..3] == wtx[1..3]
    requires k < r.rxLen && k < 33 && r.Resp() + k < CMD_BYTE
    requires PakAddress(wtx[1], wtx[2]) + 32 <= |before.store|
    ensures Executed(read, p, after).0[r.Resp() + k] ==
      if k < 32 then wtx[3 + k] else Executed(write, p, save).0[w.Resp()]
  {
    hide Asked, Executed, Crc, PakAddress, BlockAt, WithBlock, WritesPak, FourPorts;
    WriteIsKept(write, p, save, w, wtx, before);
    assert rtx[1] == rtx[1..3][0] && rtx[2] == rtx[1..3][1];
    assert wtx[1] == wtx[1..3][0] && wtx[2] == wtx[1..3][1];
    ReadReadsPak(read, p, after, r, rtx, after, k);
    WholeBlockReadsBack(before.store, PakAddress(wtx[1], wtx[2]), wtx[3..35]);
  }

  lemma WholeBlockReadsBack(store: seq<bv8>, base: nat, data: seq<bv8>)
    requires base + |data| <= |store|
    ensures BlockAt(WithBlock(store, base, data), base, |data|) == data
  {
    BlockReadsBack(store, base, data);
  }
}
