/** common/memory.c in its own form: a process whose memory the functions patch in place, and the static cave state. */
module Patching {
  import opened Bytes
  import opened Memory
  import opened Table64
  import opened Hde64Spec
  import opened Jumps
  import opened Patterns
  import opened Prologue
  import Hde64
  import Trampolines

  class Process {
    const table: HdeTable
    const cavePad: Addr
    var mem: Mem
    /** static size_t caveInstSize */
    var caveInstSize: nat
    /** static bool once */
    var once: bool
    ghost var blocks: seq<Block>

    constructor (table: HdeTable, cavePad: Addr, mem: Mem)
      requires cavePad + MAX_CAVE_SIZE + OVERRUN <= W
      ensures Valid() && this.mem == mem && blocks == []
    {
      this.table, this.cavePad, this.mem := table, cavePad, mem;
      caveInstSize, once, blocks := 0, false, [];
    }

    ghost function CaveState(): Cave
      reads this
    {
      Cave(mem, caveInstSize, blocks)
    }

    ghost predicate Valid()
      reads this
    {
      GoodCave(table, cavePad, CaveState()) && (!once ==> blocks == [])
    }

    /** sys_proc_rw with write_ set. */
    method Store(addr: Addr, data: seq<byte>)
      modifies this`mem
      ensures mem == Write(old(mem), addr, data)
    {
      mem := Write(mem, addr, data);
    }

    /** sys_proc_memset for the two fill bytes the file uses. */
    method Fill(src: Addr, c: byte, len: nat)
      modifies this`mem
      ensures mem == if len > MAX_MEMSET then old(mem) else Write(old(mem), src, Filled(c, len))
    {
      if len > MAX_MEMSET {
        return;
      }
      Store(src, Filled(c, len));
    }

    method WriteJump32(src: Addr, dst: Addr, len: Addr, call: bool)
      modifies this`mem
      ensures mem == Jumps.WriteJump32(old(mem), src, dst, len, call)
    {
      if src == 0 || dst == 0 || len < JMP_CALL_BYTES {
        return;
      }
      if len != JMP_CALL_BYTES {
        Fill(src, 0x90, len);
      }
      var relativeAddress := Relative32(src, dst);
      var op := if call then 0xe8 else 0xe9;
      Store(src, [op]);
      Store(Plus(src, 1), LeBytes(relativeAddress, 4));
    }

    method WriteJump64(src: Addr, dst: Addr)
      modifies this`mem
      ensures mem == Jumps.WriteJump64(old(mem), src, dst)
    {
      Store(src, JMP_STUB);
      Store(Plus(src, |JMP_STUB|), LeBytes(dst, 8));
    }

    /** The result is the target the call at src had before it was redirected. */
    method Make32to64Jmp(textbase: Addr, textsz: Addr, src: Addr, dst: Addr, srclen: Addr, call: bool)
      returns (src_out: Addr)
      modifies this`mem
      ensures mem == Trampolines.Installed(old(mem), textbase, textsz, Trampolines.Site(src, dst, srclen, call))
      ensures src_out == if Trampolines.FindPadding(old(mem), textbase, textsz) == 0 then 0
                         else ReadLEA32(old(mem), src, 0, 1, 5)
    {
      hide Jumps.WriteJump32, Jumps.WriteJump64, PatternBytes, Scan, ReadLEA32;
      Trampolines.Ud2Signature();
      Trampolines.RetSignature();
      src_out := 0;
      var jmparea := PatternScan(mem, textbase, textsz, Trampolines.UD2_TEXT, 2);
      if jmparea == 0 {
        jmparea := PatternScan(mem, textbase, textsz, Trampolines.RET_TEXT, 1);
      }
      if jmparea != 0 {
        src_out := ReadLEA32(mem, src, 0, 1, 5);
        WriteJump32(src, jmparea, srclen, call);
        WriteJump64(jmparea, dst);
      }
    }

    method GetInstructionSize(address: Addr, minSize: nat) returns (size: nat)
      ensures size == InstructionSize(table, mem, address, minSize)
    {
      hide Decode;
      if address == 0 {
        return 0;
      }
      size := 0;
      var code := CodeAt(mem, address);
      while size < minSize
        invariant Boundary(table, code, 0, minSize) == Boundary(table, code, size, minSize)
      {
        var len, hs := Hde64.Disasm(table, Skip(code, size));
        if F_ERROR in hs.flags {
          return 0;
        }
        size := size + len;
      }
    }

    /** Memory once the cave has been initialised: a probe function, then int3 all over. */
    ghost function Initialised(): Mem
      reads this
    {
      if once then mem
      else Write(Write(mem, cavePad, [0xb8, 0x01, 0x00, 0x00, 0x00, 0xc3]), cavePad, Filled(0xcc, MAX_CAVE_SIZE))
    }

    method CaveBlockInit()
      requires Valid()
      modifies this`mem, this`once
      ensures Valid() && once && mem == old(Initialised())
      ensures if old(once) then mem == old(mem)
              else forall i :: 0 <= i < 4096 ==> mem(Plus(cavePad, i)) == 0xcc
    {
      if !once {
        Store(cavePad, [0xb8, 0x01, 0x00, 0x00, 0x00, 0xc3]);
        Fill(cavePad, 0xcc, MAX_CAVE_SIZE);
        once := true;
      }
    }

    /** The size check, as the source has it. */
    method ValidateBlockSize(cavePadSize: nat, newSize: nat) returns (ok: bool)
      ensures ok <==> newSize <= cavePadSize
    {
      if newSize > cavePadSize {
        return false;
      }
      ok := true;
    }

    /**
     The relocated prologue's address, or 0. The state moves as the specification says, so the cave stays good, no
     earlier block changes, and memory outside the new block stays as the initialisation left it.
     */
    method CreatePrologueHook(address: Addr, min_instruction_size: int) returns (r: Addr)
      requires Valid()
      modifies this
      ensures Valid() && once && old(blocks) <= blocks
      ensures var before := Cave(old(Initialised()), old(caveInstSize), old(blocks));
              (CaveState(), r) == Hook(table, cavePad, before, address, min_instruction_size)
    {
      hide GoodCave, InstructionSize;
      CaveBlockInit();
      ghost var before := CaveState();
      HookKeepsCave(table, cavePad, before, address, min_instruction_size);
      if address == 0 || min_instruction_size < 5 {
        return 0;
      }
      var int_size := GetInstructionSize(address, min_instruction_size);
      var fits := ValidateBlockSize(MAX_CAVE_SIZE, caveInstSize + int_size + |JMP_STUB|);
      if int_size == 0 || !fits {
        return 0;
      }
      var addroffset := |JMP_STUB|;
      var ucavePadNew := Plus(cavePad, caveInstSize);
      var retaddr := Plus(address, int_size);
      ghost var block := Block(caveInstSize, address, min_instruction_size, int_size, Read(mem, address, int_size));
      Store(ucavePadNew, Read(mem, address, int_size));
      Store(Plus(ucavePadNew, int_size), JMP_STUB);
      Store(Plus(ucavePadNew, int_size + addroffset), LeBytes(retaddr, 8));
      var caveAddr := Plus(cavePad, caveInstSize);
      var new_cave_size := int_size + (|JMP_STUB| + 8);
      caveInstSize := caveInstSize + new_cave_size;
      blocks := blocks + [block];
      r := caveAddr;
    }
  }
}
