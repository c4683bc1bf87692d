/** Machine words, the register file of a stopped process, and its memory as `ptrace` shows it. */
module Words {
  const TWO8 := 0x100
  const TWO16 := 0x1_0000
  const TWO32 := 0x1_0000_0000
  const TWO64 := 0x1_0000_0000_0000_0000

  type Byte = x: nat | x < TWO8
  type Word = x: nat | x < TWO64

  /** Arithmetic on `unsigned long`: the result modulo 2^64. */
  function Wrap(x: int): Word {
    x % TWO64
  }

  /** `(char)b`: the signed value of a byte. */
  function SignExtend8(b: Byte): int {
    if b < 0x80 then b else b - TWO8
  }

  /** `(int)d`: the signed value of 32 bits. */
  function SignExtend32(d: nat): int
    requires d < TWO32
  {
    if d < 0x8000_0000 then d else d - TWO32
  }

  /** The k-th byte of the instruction in memory order: the word was read from a little-endian machine. */
  function ByteAt(w: Word, k: nat): Byte
    decreases k
  {
    if k == 0 then w % TWO8 else ByteAt(w / TWO8, k - 1)
  }

  /** Four bytes from the k-th on, least significant first. */
  function Dword(w: Word, k: nat): (d: nat)
    ensures d < TWO32
  {
    ByteAt(w, k) + 0x100 * ByteAt(w, k + 1) + 0x1_0000 * ByteAt(w, k + 2) + 0x100_0000 * ByteAt(w, k + 3)
  }

  lemma LowBytes(w: Word)
    ensures ByteAt(w, 0) == w % TWO8 && ByteAt(w, 1) == w / TWO8 % TWO8 && ByteAt(w, 2) == w / TWO8 / TWO8 % TWO8
  {
  }

  lemma LowWord(w: Word)
    ensures w % TWO16 == w % TWO8 + TWO8 * (w / TWO8 % TWO8) && w / TWO16 == w / TWO8 / TWO8
  {
    var q := w / TWO8;
    assert w == TWO16 * (q / TWO8) + (w % TWO8 + TWO8 * (q % TWO8));
  }

  lemma TwoHalves(x: Word)
    ensures x % TWO32 == x % TWO16 + TWO16 * (x / TWO16 % TWO16)
  {
    var q := x / TWO16;
    assert x == TWO32 * (q / TWO16) + (x % TWO16 + TWO16 * (q % TWO16));
  }

  lemma LowDword(x: Word)
    ensures x % TWO32 == Dword(x, 0)
  {
    TwoHalves(x);
    LowWord(x);
    LowWord(x / TWO16);
    LowBytes(x);
    var y := x / TWO16;
    assert ByteAt(x, 2) == y % TWO8;
    assert ByteAt(x, 3) == ByteAt(x / TWO8 / TWO8, 1) == y / TWO8 % TWO8;
  }

  lemma DwordShift(x: Word, k: nat)
    ensures Dword(x / TWO8, k) == Dword(x, k + 1)
    ensures ByteAt(x / TWO8, k) == ByteAt(x, k + 1)
  {
  }

  /** The factor that the two scale bits of a SIB byte stand for. */
  function ScaleFactor(bits: nat): nat {
    if bits == 0 then 1 else if bits == 1 then 2 else if bits == 2 then 4 else 8
  }

  datatype Reg =
    | Rax | Rcx | Rdx | Rbx | Rsp | Rbp | Rsi | Rdi
    | R8 | R9 | R10 | R11 | R12 | R13 | R14 | R15
    | Rip

  /** The general register of a 4-bit register number. */
  function ByNumber(n: nat): Reg
    requires n < 16
  {
    if n < 8 then
      if n < 4 then (if n == 0 then Rax else if n == 1 then Rcx else if n == 2 then Rdx else Rbx)
      else (if n == 4 then Rsp else if n == 5 then Rbp else if n == 6 then Rsi else Rdi)
    else
      if n < 12 then (if n == 8 then R8 else if n == 9 then R9 else if n == 10 then R10 else R11)
      else (if n == 12 then R12 else if n == 13 then R13 else if n == 14 then R14 else R15)
  }

  datatype Regs = Regs(
    rax: Word, rcx: Word, rdx: Word, rbx: Word, rsp: Word, rbp: Word, rsi: Word, rdi: Word,
    r8: Word, r9: Word, r10: Word, r11: Word, r12: Word, r13: Word, r14: Word, r15: Word,
    rip: Word)
  {
    /** The getters of get_regs0.c to get_regs3.c. */
    function Get(r: Reg): Word {
      match r
      case Rax => rax case Rcx => rcx case Rdx => rdx case Rbx => rbx
      case Rsp => rsp case Rbp => rbp case Rsi => rsi case Rdi => rdi
      case R8 => r8 case R9 => r9 case R10 => r10 case R11 => r11
      case R12 => r12 case R13 => r13 case R14 => r14 case R15 => r15
      case Rip => rip
    }
  }

  /** What PTRACE_PEEKTEXT answers at each address. */
  type Memory = Word -> Word
}
