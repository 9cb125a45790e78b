/** The PIF: its 64-byte RAM and the joybus executor that answers a frame in place. */
module JoybusExecutor {
  import opened MachineWords
  import opened SaveBlocks
  import opened JoybusCrc
  import opened JoybusFrame

  /** `data` copied over the frame at `at`. */
  function Copied(ram: Ram, at: nat, data: seq<bv8>): (r: Ram)
    ensures forall k :: 0 <= k < PIF_RAM_LEN ==> r[k] == if at <= k < at + |data| then data[k - at] else ram[k]
  {
    seq(PIF_RAM_LEN, k requires 0 <= k < PIF_RAM_LEN => if at <= k < at + |data| then data[k - at] else ram[k])
  }

  lemma CopyNothing(ram: Ram, at: nat)
    ensures Copied(ram, at, []) == ram
  {
  }

  lemma CopiedTwice(ram: Ram, at: nat, a: seq<bv8>, b: seq<bv8>)
    ensures Copied(Copied(ram, at, a), at + |a|, b) == Copied(ram, at, a + b)
  {
  }

  /** A block and its checksum, cut to the reply region. */
  lemma FittedBlock(block: seq<bv8>, crc: bv8, rxLen: nat)
    requires |block| == 32
    ensures Fitted(block + [crc], rxLen) == block[..Min(rxLen, 32)] + if rxLen >= 33 then [crc] else []
  {
  }

  function Marked(ram: Ram, rxByte: nat): Ram
    requires rxByte < PIF_RAM_LEN
  {
    ram[rxByte := ram[rxByte] | RX_NO_DEVICE]
  }

  lemma AppliedReply(ram: Ram, h: Handshake, reply: seq<bv8>, save: Save)
    ensures Applied(ram, h, Replies(reply, save)) == Copied(ram, h.Resp(), reply)
  {
  }

  lemma AppliedFlag(ram: Ram, h: Handshake, save: Save)
    requires h.RxByte() < PIF_RAM_LEN
    ensures Applied(ram, h, NoDevice(save)) == Marked(ram, h.RxByte())
  {
  }

  class Pif {
    const ram: array<bv8>
    var pakPresent: seq<bool>
    var connected: seq<bool>

    ghost predicate Valid()
      reads this
    {
      ram.Length == PIF_RAM_LEN && |pakPresent| == 4 && |connected| == 4
    }

    ghost function PortsWith(controllers: seq<bv32>): Ports
      reads this
    {
      Ports(connected, pakPresent, controllers)
    }

    /** Power-on: RAM cleared, one controller in port 1, no pak. */
    constructor ()
      ensures Valid() && fresh(ram)
      ensures ram[..] == seq(PIF_RAM_LEN, _ => 0)
      ensures connected == [true, false, false, false] && pakPresent == [false, false, false, false]
    {
      ram := new bv8[PIF_RAM_LEN](_ => 0);
      connected := [true, false, false, false];
      pakPresent := [false, false, false, false];
    }

    /** Runs the frame where it lies. Although every answer overwrites the buffer that is still being
        parsed, the result is the one the frame as it was sent asks for. */
    method Execute(controllers: seq<bv32>, save: SaveDevice)
      requires Valid() && |controllers| == 4 && ram != save.store
      modifies ram, save.store
      ensures (ram[..], save.Value()) == Executed(old(ram[..]), PortsWith(controllers), old(save.Value()))
    {
      if ram[CMD_BYTE] & 0x01 == 0 {
        return;
      }
      ParseWithinFrame(ram[..], 0, 0);
      RunFrame(controllers, save);
      ram[CMD_BYTE] := ram[CMD_BYTE] & 0xFE;
      hide Run, Parse;
    }

    method RunFrame(controllers: seq<bv32>, save: SaveDevice)
      requires Valid() && |controllers| == 4 && ram != save.store
      requires WithinFrame(Parse(ram[..], 0, 0))
      modifies ram, save.store
      ensures (ram[..], save.Value()) ==
        Run(old(ram[..]), old(ram[..]), Parse(old(ram[..]), 0, 0), PortsWith(controllers), old(save.Value()))
    {
      ghost var sent: Ram := ram[..];
      var i, channel := 0, 0;
      while i < CMD_BYTE && channel <= 4
        invariant 0 <= i <= PIF_RAM_LEN && 0 <= channel && Ahead(sent, i)
        invariant WithinFrame(Parse(sent, i, channel))
        invariant Run(ram[..], sent, Parse(sent, i, channel), PortsWith(controllers), save.Value()) ==
          Run(sent, sent, Parse(sent, 0, 0), PortsWith(controllers), old(save.Value()))
        decreases PIF_RAM_LEN - i
      {
        hide Parse, Run, WithinFrame, HandshakeAt;
        ParseCases(sent, i, channel);
        if ram[i] == TX_END {
          break;
        } else if ram[i] == TX_NOP {
          i := i + 1;
        } else if ram[i] == TX_SKIP {
          channel := channel + 1;
          i := i + 1;
        } else {
          var next := RunHandshake(i, channel, sent, controllers, save);
          if next.None? {
            break;
          }
          i := next.value;
          channel := channel + 1;
        }
      }
      ParseCases(sent, i, channel);
      hide Parse;
    }

    /** The handshake at byte i, which is a length; nothing when it does not fit the frame. */
    method RunHandshake(i: nat, channel: nat, ghost sent: Ram, controllers: seq<bv32>, save: SaveDevice)
      returns (next: Option<nat>)
      requires Valid() && |controllers| == 4 && ram != save.store
      requires i < CMD_BYTE && channel <= 4 && !IsControl(ram[i]) && Ahead(sent, i)
      requires WithinFrame(Parse(sent, i, channel))
      modifies ram, save.store
      ensures next.None? ==>
        Parse(sent, i, channel) == [] && ram[..] == old(ram[..]) && save.Value() == old(save.Value())
      ensures next.Some? ==>
        i < next.value <= PIF_RAM_LEN && Ahead(sent, next.value) &&
        WithinFrame(Parse(sent, next.value, channel + 1)) &&
        Run(ram[..], sent, Parse(sent, next.value, channel + 1), PortsWith(controllers), save.Value()) ==
          Run(old(ram[..]), sent, Parse(sent, i, channel), PortsWith(controllers), old(save.Value()))
    {
      ParseCases(sent, i, channel);
      hide Parse, Run, WithinFrame;
      var txLen := Length(ram[i]);
      if i + 1 >= CMD_BYTE {
        return None;
      }
      var rxLen := Length(ram[i + 1]);
      var cmd := i + 2;
      var resp := cmd + txLen;
      var h := Handshake(channel, i, txLen, rxLen);
      assert h == HandshakeAt(sent, i, channel);
      if resp + rxLen > PIF_RAM_LEN {
        return None;
      }
      ParseWithinFrame(sent, h.End(), channel + 1);
      Shake(h, sent, Parse(sent, h.End(), channel + 1), controllers, save);
      return Some(resp + rxLen);
    }

    /** The frame from byte i on still is as it was sent. */
    ghost predicate Ahead(sent: Ram, i: nat)
      requires ram.Length == PIF_RAM_LEN
      reads ram
    {
      forall k :: i <= k < PIF_RAM_LEN ==> ram[k] == sent[k]
    }

    /** One handshake of the frame, in place: the handshakes after it are left as they were sent, and
        what remains to be run no longer includes it. */
    method Shake(h: Handshake, ghost sent: Ram, ghost rest: seq<Handshake>, controllers: seq<bv32>, save: SaveDevice)
      requires Valid() && |controllers| == 4 && ram != save.store
      requires h.RxByte() < CMD_BYTE && h.End() <= PIF_RAM_LEN && h.channel <= 4
      requires Ahead(sent, h.at) && WithinFrame([h] + rest) && WithinFrame(rest)
      modifies ram, save.store
      ensures Ahead(sent, h.End())
      ensures Run(ram[..], sent, rest, PortsWith(controllers), save.Value()) ==
        Run(old(ram[..]), sent, [h] + rest, PortsWith(controllers), old(save.Value()))
    {
      ghost var ports := PortsWith(controllers);
      assert ram[h.Cmd()..h.Resp()] == Sent(sent, h);
      RunStep(ram[..], sent, h, rest, ports, save.Value());
      ghost var o := Answer(ports, h.channel, Sent(sent, h), h.rxLen, save.Value());
      ghost var was: Ram := ram[..];
      hide Run, Applied, Sent, PortAnswer, CartAnswer;
      if h.channel < 4 && !connected[h.channel] {
        AppliedFlag(was, h, save.Value());
        MarkNoDevice(h.RxByte());
      } else {
        RunChannel(h, controllers, save);
      }
      forall k | h.End() <= k < PIF_RAM_LEN
        ensures ram[k] == sent[k]
      {
        AppliedKeepsAfter(was, h, o, k);
      }
    }

    method RunChannel(h: Handshake, controllers: seq<bv32>, save: SaveDevice)
      requires Valid() && |controllers| == 4 && ram != save.store
      requires h.RxByte() < CMD_BYTE && h.End() <= PIF_RAM_LEN && h.channel <= 4
      requires h.channel < 4 ==> connected[h.channel]
      modifies ram, save.store
      ensures
        var o := Answer(PortsWith(controllers), h.channel, old(ram[h.Cmd()..h.Resp()]), h.rxLen, old(save.Value()));
        ram[..] == Applied(old(ram[..]), h, o) && save.Value() == o.save
    {
      if h.txLen == 0 {
        assert ram[h.Cmd()..h.Resp()] == [];
        AppliedReply(ram[..], h, [], save.Value());
        return;
      }
      if h.channel < 4 {
        RunPort(h, controllers[h.channel], pakPresent[h.channel], save);
      } else {
        RunCart(h, save);
      }
    }

    /** The controllers' half of a channel's commands. */
    method RunPort(h: Handshake, controller: bv32, pak: bool, save: SaveDevice)
      requires Valid() && ram != save.store
      requires h.RxByte() < CMD_BYTE && h.End() <= PIF_RAM_LEN && h.txLen > 0
      modifies ram, save.store
      ensures
        var o := PortAnswer(controller, pak, old(ram[h.Cmd()..h.Resp()]), h.rxLen, old(save.Value()));
        ram[..] == Applied(old(ram[..]), h, o) && save.Value() == o.save
    {
      ghost var tx := ram[h.Cmd()..h.Resp()];
      ghost var was: Ram, saved := ram[..], save.Value();
      var command := ram[h.Cmd()];
      assert tx[0] == command;
      hide PakAddress, PakBlock, PakCrc, PakWritten, StateBytes, Applied, Copied;
      if command == 0x00 || command == 0xFF {
        if h.rxLen >= 3 {
          CopyIn(h.Resp(), [0x05, 0x00, if pak then 0x01 else 0x02]);
        } else {
          CopyNothing(was, h.Resp());
        }
        AppliedReply(was, h, PortAnswer(controller, pak, tx, h.rxLen, saved).reply, saved);
      } else if command == 0x01 {
        CopyIn(h.Resp(), StateBytes(controller)[..Min(h.rxLen, 4)]);
        AppliedReply(was, h, Fitted(StateBytes(controller), h.rxLen), saved);
      } else if command == 0x02 && h.txLen >= 3 {
        assert tx[1] == ram[h.Cmd() + 1] && tx[2] == ram[h.Cmd() + 2];
        ReadPak(h, pak, save);
        AppliedReply(was, h, PortAnswer(controller, pak, tx, h.rxLen, saved).reply, saved);
      } else if command == 0x03 && h.txLen >= 35 {
        assert tx[1] == ram[h.Cmd() + 1] && tx[2] == ram[h.Cmd() + 2];
        SentSlice(was, h.Cmd(), h.Resp(), 3, 35);
        WritePak(h, pak, save);
        AppliedReply(was, h, PortAnswer(controller, pak, tx, h.rxLen, saved).reply, save.Value());
      } else {
        AppliedFlag(was, h, saved);
        MarkNoDevice(h.RxByte());
      }
    }

    method ReadPak(h: Handshake, pak: bool, save: SaveDevice)
      requires Valid() && ram != save.store
      requires h.End() <= PIF_RAM_LEN && h.txLen >= 3
      modifies ram
      ensures
        var block := PakBlock(pak, save.Value(), PakAddress(old(ram[h.Cmd() + 1]), old(ram[h.Cmd() + 2])));
        ram[..] == Copied(old(ram[..]), h.Resp(), Fitted(block + [PakCrc(pak, block)], h.rxLen))
    {
      var addr := PakAddress(ram[h.Cmd() + 1], ram[h.Cmd() + 2]);
      var block := seq(32, _ => 0);
      if pak {
        block := save.ReadBlock(ControllerPak, addr, 32);
      }
      assert block == PakBlock(pak, save.Value(), addr);
      hide PakBlock, PakCrc, PakAddress, Copied, Fitted;
      ReplyBlock(h, pak, block);
    }

    /** A block and its checksum, as much of them as the reply region takes. */
    method ReplyBlock(h: Handshake, pak: bool, block: seq<bv8>)
      requires Valid() && h.End() <= PIF_RAM_LEN && |block| == 32
      modifies ram
      ensures ram[..] == Copied(old(ram[..]), h.Resp(), Fitted(block + [PakCrc(pak, block)], h.rxLen))
    {
      hide Crc, Copied, Fitted;
      ghost var was: Ram := ram[..];
      FittedBlock(block, PakCrc(pak, block), h.rxLen);
      CopyIn(h.Resp(), block[..Min(h.rxLen, 32)]);
      if h.rxLen >= 33 {
        assert block[..32] == block;
        CopiedTwice(was, h.Resp(), block, [PakCrc(pak, block)]);
        var crc := DataCrc(block);
        CopyIn(h.Resp() + 32, [if pak then crc else crc ^ 0xFF]);
      } else {
        assert block[..Min(h.rxLen, 32)] + [] == block[..Min(h.rxLen, 32)];
      }
    }

    method WritePak(h: Handshake, pak: bool, save: SaveDevice)
      requires Valid() && ram != save.store
      requires h.End() <= PIF_RAM_LEN && h.txLen >= 35
      modifies ram, save.store
      ensures
        var block := old(ram[h.Cmd() + 3..h.Cmd() + 35]);
        var addr := PakAddress(old(ram[h.Cmd() + 1]), old(ram[h.Cmd() + 2]));
        ram[..] == Copied(old(ram[..]), h.Resp(), if h.rxLen >= 1 then [PakCrc(pak, block)] else []) &&
        save.Value() == PakWritten(pak, old(save.Value()), addr, block)
    {
      var addr := PakAddress(ram[h.Cmd() + 1], ram[h.Cmd() + 2]);
      var block := ram[h.Cmd() + 3..h.Cmd() + 35];
      if pak {
        save.WriteBlock(ControllerPak, addr, block);
      }
      if h.rxLen >= 1 {
        var crc := DataCrc(block);
        CopyIn(h.Resp(), [if pak then crc else crc ^ 0xFF]);
      }
      hide Crc, PakAddress;
    }

    /** The cartridge's half. */
    method RunCart(h: Handshake, save: SaveDevice)
      requires Valid() && ram != save.store
      requires h.RxByte() < CMD_BYTE && h.End() <= PIF_RAM_LEN && h.txLen > 0
      modifies ram, save.store
      ensures
        var o := CartAnswer(old(ram[h.Cmd()..h.Resp()]), h.rxLen, old(save.Value()));
        ram[..] == Applied(old(ram[..]), h, o) && save.Value() == o.save
    {
      ghost var tx := ram[h.Cmd()..h.Resp()];
      ghost var was: Ram, saved := ram[..], save.Value();
      var command := ram[h.Cmd()];
      assert tx[0] == command;
      hide Applied, Copied, BlockAt, WithBlock, Fitted;
      if (command == 0x00 || command == 0xFF) && save.kind == Eeprom {
        IdentifyEeprom(h, save);
        AppliedReply(was, h, CartAnswer(tx, h.rxLen, saved).reply, saved);
      } else if command == 0x04 && h.txLen >= 2 && save.kind == Eeprom {
        assert tx[1] == ram[h.Cmd() + 1];
        ReadEeprom(h, save);
        AppliedReply(was, h, CartAnswer(tx, h.rxLen, saved).reply, saved);
      } else if command == 0x05 && h.txLen >= 10 && save.kind == Eeprom {
        assert tx[1] == ram[h.Cmd() + 1];
        SentSlice(was, h.Cmd(), h.Resp(), 2, 10);
        WriteEeprom(h, save);
        AppliedReply(was, h, CartAnswer(tx, h.rxLen, saved).reply, save.Value());
      } else {
        AppliedFlag(was, h, saved);
        MarkNoDevice(h.RxByte());
      }
    }

    method IdentifyEeprom(h: Handshake, save: SaveDevice)
      requires Valid() && ram != save.store && h.End() <= PIF_RAM_LEN
      modifies ram
      ensures ram[..] == Copied(old(ram[..]), h.Resp(),
        if h.rxLen >= 3 then [0x00, if save.store.Length > 512 then 0xC0 else 0x80, 0x00] else [])
    {
      hide Copied;
      if h.rxLen >= 3 {
        CopyIn(h.Resp(), [0x00, if save.store.Length > 512 then 0xC0 else 0x80, 0x00]);
      } else {
        CopyNothing(ram[..], h.Resp());
      }
    }

    method ReadEeprom(h: Handshake, save: SaveDevice)
      requires Valid() && ram != save.store && save.kind == Eeprom
      requires h.End() <= PIF_RAM_LEN && h.txLen >= 2
      modifies ram
      ensures ram[..] == Copied(old(ram[..]), h.Resp(),
        Fitted(BlockAt(save.store[..], old(ram[h.Cmd() + 1]) as nat * 8, 8), h.rxLen))
    {
      hide Copied, BlockAt;
      var block := save.ReadBlock(Eeprom, ram[h.Cmd() + 1] as nat * 8, 8);
      CopyIn(h.Resp(), block[..Min(h.rxLen, 8)]);
    }

    method WriteEeprom(h: Handshake, save: SaveDevice)
      requires Valid() && ram != save.store && save.kind == Eeprom
      requires h.End() <= PIF_RAM_LEN && h.txLen >= 10
      modifies ram, save.store
      ensures ram[..] == Copied(old(ram[..]), h.Resp(), if h.rxLen >= 1 then [0x00] else [])
      ensures save.store[..] == WithBlock(old(save.store[..]), old(ram[h.Cmd() + 1]) as nat * 8,
                                          old(ram[h.Cmd() + 2..h.Cmd() + 10]))
    {
      hide Copied, WithBlock;
      ghost var was: Ram := ram[..];
      var data := ram[h.Cmd() + 2..h.Cmd() + 10];
      save.WriteBlock(Eeprom, ram[h.Cmd() + 1] as nat * 8, data);
      if h.rxLen >= 1 {
        CopyIn(h.Resp(), [0x00]);
      } else {
        CopyNothing(was, h.Resp());
      }
    }

    method CopyIn(at: nat, data: seq<bv8>)
      requires Valid() && at + |data| <= PIF_RAM_LEN
      modifies ram
      ensures ram[..] == Copied(old(ram[..]), at, data)
    {
      forall k | 0 <= k < |data| {
        ram[at + k] := data[k];
      }
    }

    /** The flag goes on the RX byte, the second of the handshake. */
    method MarkNoDevice(rxByte: nat)
      requires Valid() && rxByte < PIF_RAM_LEN
      modifies ram
      ensures ram[..] == Marked(old(ram[..]), rxByte)
    {
      ram[rxByte] := ram[rxByte] | RX_NO_DEVICE;
    }
  }
}
