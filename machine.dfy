/**
 * The interpreter's machine state (src/lib.rs): the sizes fixed by the
 * constants, the `Chip8` record, the reset state `Chip8::new` builds, and
 * `load_rom`, whose body is still empty. Rust's fixed-size arrays are values
 * whose length is part of their type; here they are sequences whose length
 * is part of their subset type.
 */
module Machine {

  newtype u8 = x: int | 0 <= x < 0x100
  newtype u16 = x: int | 0 <= x < 0x1_0000

  const MemSize: nat := 4096
  const StackSize: nat := 16
  const NRegisters: nat := 16
  const ProgramStartAddr: u16 := 0x200
  const DisplayW: nat := 64
  const DisplayH: nat := 32

  /** `[u8; MEM_SIZE]` */
  type Memory = s: seq<u8> | |s| == MemSize witness seq(MemSize, _ => 0 as u8)

  /** One row of the display, `[bool; DISPLAY_W]` */
  type Row = r: seq<bool> | |r| == DisplayW witness seq(DisplayW, _ => false)

  /** `[[bool; DISPLAY_W]; DISPLAY_H]`: DisplayH rows of DisplayW pixels, indexed row first. */
  type Display = d: seq<Row> | |d| == DisplayH witness seq(DisplayH, _ => seq(DisplayW, _ => false))

  /** `[u16; STACK_SIZE]` */
  type Stack = s: seq<u16> | |s| == StackSize witness seq(StackSize, _ => 0 as u16)

  /** `[u8; N_REGISTERS]` */
  type Registers = s: seq<u8> | |s| == NRegisters witness seq(NRegisters, _ => 0 as u8)

  /** The `Chip8` struct, one field per struct field and no other. */
  datatype Chip8 = Chip8(
    memory: Memory,
    displayBuf: Display,
    pc: u16,          // program counter
    I: u16,           // index register
    stack: Stack,
    delayT: u8,       // delay timer
    soundT: u8,       // sound timer
    V: Registers      // registers V0 to VF
  )

  /**
   * The reset state: all memory zero, every pixel off, the program counter at
   * the program start address, the index register zero, an all-zero stack,
   * both timers zero and all registers zero.
   */
  predicate IsReset(m: Chip8) {
    && (forall a :: 0 <= a < MemSize ==> m.memory[a] == 0)
    && (forall y, x :: 0 <= y < DisplayH && 0 <= x < DisplayW ==> !m.displayBuf[y][x])
    && m.pc == ProgramStartAddr
    && m.I == 0
    && (forall k :: 0 <= k < StackSize ==> m.stack[k] == 0)
    && m.delayT == 0
    && m.soundT == 0
    && (forall r :: 0 <= r < NRegisters ==> m.V[r] == 0)
  }

  /** `Chip8::new()`: builds the reset state; no font is loaded into memory. */
  function New(): (m: Chip8)
    ensures IsReset(m)
  {
    Chip8(
      seq(MemSize, _ => 0),
      seq(DisplayH, _ => seq(DisplayW, _ => false)),
      ProgramStartAddr,
      0,
      seq(StackSize, _ => 0),
      0,
      0,
      seq(NRegisters, _ => 0))
  }

  /** The reset conditions name every field of the state: `New()` is the only machine meeting them. */
  lemma ResetStateIsUnique(m: Chip8)
    ensures IsReset(m) <==> m == New()
  {
    if IsReset(m) {
      var n := New();
      assert m.memory == n.memory;
      forall y | 0 <= y < DisplayH ensures m.displayBuf[y] == n.displayBuf[y] {
        assert forall x :: 0 <= x < DisplayW ==> m.displayBuf[y][x] == n.displayBuf[y][x];
      }
      assert m.displayBuf == n.displayBuf;
      assert m.stack == n.stack;
      assert m.V == n.V;
    }
  }

  /** `load_rom`: its body is empty, so the machine is what it was before. */
  function LoadRom(m: Chip8): (r: Chip8)
    ensures r == m
  {
    m
  }
}
