/**
 * The SAYAC instruction table: the mnemonics the assembler knows, how
 * many operands each takes, and the layout of the bit string written
 * for each.
 */
module Isa {
  import opened Results
  import opened Numerals

  datatype Mnemonic =
    | Ldr | Ldrio | Str | Strio | Jmr | Jmrs | Jmi
    | Anr | Ani | Msi | Mhi | Slr | Sar
    | Add | Adr | Sub | Sur | Adi | Sui | Mul | Div
    | Cmr | Cmi | Brc | Brr | Shi | Shila
    | Ntr | Ntr2c | Ntd | Ntd2c

  /** The mnemonic as written in assembly text. */
  function Name(m: Mnemonic): string {
    match m
    case Ldr => "ldr"        case Ldrio => "ldrio"    case Str => "str"
    case Strio => "strio"    case Jmr => "jmr"        case Jmrs => "jmrs"
    case Jmi => "jmi"        case Anr => "anr"        case Ani => "ani"
    case Msi => "msi"        case Mhi => "mhi"        case Slr => "slr"
    case Sar => "sar"        case Add => "add"        case Adr => "adr"
    case Sub => "sub"        case Sur => "sur"        case Adi => "adi"
    case Sui => "sui"        case Mul => "mul"        case Div => "div"
    case Cmr => "cmr"        case Cmi => "cmi"        case Brc => "brc"
    case Brr => "brr"        case Shi => "shi"        case Shila => "shila"
    case Ntr => "ntr"        case Ntr2c => "ntr2c"    case Ntd => "ntd"
    case Ntd2c => "ntd2c"
  }

  /** The number of keys of the operand-count table. */
  const TableSize: nat := 31

  /** The key at position `k` of the operand-count table, in the order they are written. */
  function KeyAt(k: nat): (m: Mnemonic)
    requires k < TableSize
  {
    match k
    case 0 => Ldr    case 1 => Ldrio  case 2 => Str    case 3 => Strio  case 4 => Jmr
    case 5 => Jmrs   case 6 => Jmi    case 7 => Anr    case 8 => Ani    case 9 => Msi
    case 10 => Mhi   case 11 => Slr   case 12 => Sar   case 13 => Add   case 14 => Adr
    case 15 => Sub   case 16 => Sur   case 17 => Adi   case 18 => Sui   case 19 => Mul
    case 20 => Div   case 21 => Cmr   case 22 => Cmi   case 23 => Brc   case 24 => Brr
    case 25 => Shi   case 26 => Shila case 27 => Ntr   case 28 => Ntr2c case 29 => Ntd
    case _ => Ntd2c
  }

  /** The position of each mnemonic among the keys. */
  function Position(m: Mnemonic): (k: nat)
    ensures k < TableSize && KeyAt(k) == m
  {
    match m
    case Ldr => 0    case Ldrio => 1  case Str => 2    case Strio => 3  case Jmr => 4
    case Jmrs => 5   case Jmi => 6    case Anr => 7    case Ani => 8    case Msi => 9
    case Mhi => 10   case Slr => 11   case Sar => 12   case Add => 13   case Adr => 14
    case Sub => 15   case Sur => 16   case Adi => 17   case Sui => 18   case Mul => 19
    case Div => 20   case Cmr => 21   case Cmi => 22   case Brc => 23   case Brr => 24
    case Shi => 25   case Shila => 26 case Ntr => 27   case Ntr2c => 28 case Ntd => 29
    case Ntd2c => 30
  }

  /** The first key from position `k` on whose name is `name`. */
  function Find(name: string, k: nat): (r: Option<Mnemonic>)
    ensures r.Some? ==> Name(r.value) == name
    decreases TableSize - k
  {
    if k >= TableSize then None
    else if Name(KeyAt(k)) == name then Some(KeyAt(k))
    else Find(name, k + 1)
  }

  /**
   * The key lookup in the operand-count table; `None` is the `KeyError`
   * of a missing key.
   */
  function Lookup(name: string): (r: Option<Mnemonic>)
    ensures r.Some? ==> Name(r.value) == name
  {
    Find(name, 0)
  }

  /** Reads a mnemonic back from its name, by its length and letters. */
  function Candidate(name: string): Option<Mnemonic> {
    if |name| == 3 then
      match (name[0], name[1], name[2])
      case ('l', 'd', 'r') => Some(Ldr)  case ('s', 't', 'r') => Some(Str)
      case ('j', 'm', 'r') => Some(Jmr)  case ('j', 'm', 'i') => Some(Jmi)
      case ('a', 'n', 'r') => Some(Anr)  case ('a', 'n', 'i') => Some(Ani)
      case ('m', 's', 'i') => Some(Msi)  case ('m', 'h', 'i') => Some(Mhi)
      case ('s', 'l', 'r') => Some(Slr)  case ('s', 'a', 'r') => Some(Sar)
      case ('a', 'd', 'd') => Some(Add)  case ('a', 'd', 'r') => Some(Adr)
      case ('s', 'u', 'b') => Some(Sub)  case ('s', 'u', 'r') => Some(Sur)
      case ('a', 'd', 'i') => Some(Adi)  case ('s', 'u', 'i') => Some(Sui)
      case ('m', 'u', 'l') => Some(Mul)  case ('d', 'i', 'v') => Some(Div)
      case ('c', 'm', 'r') => Some(Cmr)  case ('c', 'm', 'i') => Some(Cmi)
      case ('b', 'r', 'c') => Some(Brc)  case ('b', 'r', 'r') => Some(Brr)
      case ('s', 'h', 'i') => Some(Shi)  case ('n', 't', 'r') => Some(Ntr)
      case ('n', 't', 'd') => Some(Ntd)
      case _ => None
    else if |name| == 4 then
      match (name[0], name[1], name[2], name[3])
      case ('j', 'm', 'r', 's') => Some(Jmrs)
      case _ => None
    else if |name| == 5 then
      match (name[0], name[1], name[2], name[3], name[4])
      case ('l', 'd', 'r', 'i', 'o') => Some(Ldrio)
      case ('s', 't', 'r', 'i', 'o') => Some(Strio)
      case ('s', 'h', 'i', 'l', 'a') => Some(Shila)
      case ('n', 't', 'r', '2', 'c') => Some(Ntr2c)
      case ('n', 't', 'd', '2', 'c') => Some(Ntd2c)
      case _ => None
    else None
  }

  /** The required operand count of each mnemonic. */
  function ArgCount(m: Mnemonic): nat {
    match m
    case Ldr | Ldrio | Str | Strio | Jmr | Jmrs | Jmi => 2
    case Anr | Slr | Sar | Add | Adr | Sub | Sur | Mul | Div => 3
    case Ani | Msi | Mhi | Adi | Sui => 2
    case Cmr | Cmi | Brc | Brr | Shi | Shila | Ntr | Ntr2c => 2
    case Ntd | Ntd2c => 1
  }

  /** How an operand token is read before it is written in binary. */
  datatype OperandKind =
    | Register  // every `_` and `r` deleted, then read as decimal
    | Immediate // read as decimal as it stands
    | FlagCode  // read by `hexToInt`

  /**
   * One `_`-separated piece of an encoding: a fixed literal, or operand
   * number `arg` (1 is the first token after the mnemonic) written in a
   * field `width` binary digits wide.
   */
  datatype Field =
    | Bits(literal: string)
    | Operand(arg: nat, kind: OperandKind, width: nat)

  /**
   * The shapes of the encodings the branches write. Operand numbers count
   * the tokens after the mnemonic from 1; "rd" is operand 1 in every form
   * that has one.
   */
  datatype Layout =
    | Transfer(select: string, bit: string)        // `m rd rs1` as 0010_ss_b_0_rs1_rd
    | JumpImmediate                                // `jmi rd imm` as 0010_11_imm6_rd
    | ThreeRegister(opcode: string)                // `m rd rs1 rs2` as oooo_rs1_rs2_rd
    | RegisterImmediate(opcode: string)            // `m rd imm` as oooo_imm8_rd
    | RegisterPair(sub: string, bit: string)       // `m x y` as 1111_sss_b_y_x
    | ShortOperand(sub: string, kind: OperandKind) // `m x reg` as 1111_sss_x5_reg
    | Shift(bit: string)                           // `m shimm rd` as 1111_10_b_shimm5_rd
    | NotDestination(bit: string)                  // `m rd` as 1111_111_b_0000_rd

  /** The layout of each mnemonic's branch. */
  function LayoutOf(m: Mnemonic): Layout {
    match m
    case Ldr => Transfer("00", "0")            case Ldrio => Transfer("00", "1")
    case Str => Transfer("01", "0")            case Strio => Transfer("01", "1")
    case Jmr => Transfer("10", "0")            case Jmrs => Transfer("10", "1")
    case Jmi => JumpImmediate
    case Anr => ThreeRegister("0011")          case Ani => RegisterImmediate("0100")
    case Msi => RegisterImmediate("0101")      case Mhi => RegisterImmediate("0110")
    case Slr => ThreeRegister("0111")          case Sar => ThreeRegister("1000")
    case Add => ThreeRegister("1001")          case Adr => ThreeRegister("1001")
    case Sub => ThreeRegister("1010")          case Sur => ThreeRegister("1010")
    case Adi => RegisterImmediate("1011")      case Sui => RegisterImmediate("1100")
    case Mul => ThreeRegister("1101")          case Div => ThreeRegister("1110")
    case Cmr => RegisterPair("000", "0")       case Cmi => ShortOperand("001", Immediate)
    case Brc => ShortOperand("010", FlagCode)  case Brr => ShortOperand("011", FlagCode)
    case Shi => Shift("0")                     case Shila => Shift("1")
    case Ntr => RegisterPair("110", "0")       case Ntr2c => RegisterPair("110", "1")
    case Ntd => NotDestination("0")            case Ntd2c => NotDestination("1")
  }

  /** The literals of a layout are binary digits of the widths its shape fixes. */
  predicate LayoutOk(l: Layout) {
    match l
    case Transfer(select, bit) => |select| == 2 && IsBits(select) && |bit| == 1 && IsBits(bit)
    case JumpImmediate => true
    case ThreeRegister(opcode) => |opcode| == 4 && IsBits(opcode)
    case RegisterImmediate(opcode) => |opcode| == 4 && IsBits(opcode)
    case RegisterPair(sub, bit) => |sub| == 3 && IsBits(sub) && |bit| == 1 && IsBits(bit)
    case ShortOperand(sub, _) => |sub| == 3 && IsBits(sub)
    case Shift(bit) => |bit| == 1 && IsBits(bit)
    case NotDestination(bit) => |bit| == 1 && IsBits(bit)
  }

  /** The number of operand tokens a layout reads. */
  function Arity(l: Layout): nat {
    match l
    case ThreeRegister(_) => 3
    case NotDestination(_) => 1
    case _ => 2
  }

  function Reg(arg: nat): Field {
    Operand(arg, Register, 4)
  }

  /** Operand fields read only operands 1 to `n`. */
  predicate OperandsWithin(fs: seq<Field>, n: nat) {
    forall i :: 0 <= i < |fs| && fs[i].Operand? ==> 1 <= fs[i].arg <= n
  }

  /** The fields of a layout, in the order they are written. */
  function Fields(l: Layout): (fs: seq<Field>)
    ensures OperandsWithin(fs, Arity(l))
  {
    match l
    case Transfer(select, bit) => [Bits("0010"), Bits(select), Bits(bit), Bits("0"), Reg(2), Reg(1)]
    case JumpImmediate => [Bits("0010"), Bits("11"), Operand(2, Immediate, 6), Reg(1)]
    case ThreeRegister(opcode) => [Bits(opcode), Reg(2), Reg(3), Reg(1)]
    case RegisterImmediate(opcode) => [Bits(opcode), Operand(2, Immediate, 8), Reg(1)]
    case RegisterPair(sub, bit) => [Bits("1111"), Bits(sub), Bits(bit), Reg(2), Reg(1)]
    case ShortOperand(sub, kind) => [Bits("1111"), Bits(sub), Operand(1, kind, 5), Reg(2)]
    case Shift(bit) => [Bits("1111"), Bits("10"), Bits(bit), Operand(1, Immediate, 5), Reg(2)]
    case NotDestination(bit) => [Bits("1111"), Bits("111"), Bits(bit), Bits("0000"), Reg(1)]
  }

  /**
   * The fields each mnemonic's branch writes; they read only the tokens
   * the count check guarantees.
   */
  function Format(m: Mnemonic): (fs: seq<Field>)
    ensures OperandsWithin(fs, ArgCount(m))
  {
    TableArity(m);
    Fields(LayoutOf(m))
  }

  /** The number of binary digits a field stands for. */
  function Width(f: Field): nat {
    match f
    case Bits(l) => |l|
    case Operand(_, _, w) => w
  }

  function TotalWidth(fs: seq<Field>): nat {
    if fs == [] then 0 else Width(fs[0]) + TotalWidth(fs[1..])
  }

  /** The operand numbers of a layout, in the order they are written. */
  function OperandArgs(fs: seq<Field>): seq<nat> {
    if fs == [] then []
    else if fs[0].Operand? then [fs[0].arg] + OperandArgs(fs[1..])
    else OperandArgs(fs[1..])
  }

  /**
   * Every literal of a layout is made of binary digits, and every operand
   * field is 4, 5, 6 or 8 digits wide.
   */
  predicate FieldsOk(fs: seq<Field>) {
    forall i :: 0 <= i < |fs| ==>
      if fs[i].Bits? then IsBits(fs[i].literal) else fs[i].width in {4, 5, 6, 8}
  }

  predicate InGroup0010(m: Mnemonic) {
    m in {Ldr, Ldrio, Str, Strio, Jmr, Jmrs, Jmi}
  }

  predicate InGroup1111(m: Mnemonic) {
    m in {Cmr, Cmi, Brc, Brr, Shi, Shila, Ntr, Ntr2c, Ntd, Ntd2c}
  }

  // ---- Properties of the table ----

  /** The operand number a field reads, if any, as a sequence of at most one. */
  function ArgOf(f: Field): seq<nat> {
    if f.Operand? then [f.arg] else []
  }

  /** How the measures above see a field put in front of others. */
  lemma FieldCons(f: Field, rest: seq<Field>)
    ensures TotalWidth([f] + rest) == Width(f) + TotalWidth(rest)
    ensures OperandArgs([f] + rest) == ArgOf(f) + OperandArgs(rest)
  {
    assert ([f] + rest)[1..] == rest;
  }

  lemma Measures3(a: Field, b: Field, c: Field)
    ensures TotalWidth([a, b, c]) == Width(a) + Width(b) + Width(c)
    ensures OperandArgs([a, b, c]) == ArgOf(a) + (ArgOf(b) + ArgOf(c))
  {
    FieldCons(c, []);
    FieldCons(b, [c]);
    FieldCons(a, [b, c]);
    assert OperandArgs([]) == [];
    assert [c] + [] == [c];
    assert [b] + [c] == [b, c];
    assert [a] + [b, c] == [a, b, c];
  }

  lemma Measures4(a: Field, b: Field, c: Field, d: Field)
    ensures TotalWidth([a, b, c, d]) == Width(a) + Width(b) + Width(c) + Width(d)
    ensures OperandArgs([a, b, c, d]) == ArgOf(a) + (ArgOf(b) + (ArgOf(c) + ArgOf(d)))
  {
    Measures3(b, c, d);
    FieldCons(a, [b, c, d]);
    assert [a] + [b, c, d] == [a, b, c, d];
  }

  lemma Measures5(a: Field, b: Field, c: Field, d: Field, e: Field)
    ensures TotalWidth([a, b, c, d, e]) == Width(a) + Width(b) + Width(c) + Width(d) + Width(e)
    ensures OperandArgs([a, b, c, d, e]) == ArgOf(a) + (ArgOf(b) + (ArgOf(c) + (ArgOf(d) + ArgOf(e))))
  {
    Measures4(b, c, d, e);
    FieldCons(a, [b, c, d, e]);
    assert [a] + [b, c, d, e] == [a, b, c, d, e];
  }

  lemma Measures6(a: Field, b: Field, c: Field, d: Field, e: Field, f: Field)
    ensures TotalWidth([a, b, c, d, e, f]) == Width(a) + Width(b) + Width(c) + Width(d) + Width(e) + Width(f)
    ensures OperandArgs([a, b, c, d, e, f]) == ArgOf(a) + (ArgOf(b) + (ArgOf(c) + (ArgOf(d) + (ArgOf(e) + ArgOf(f)))))
  {
    Measures5(b, c, d, e, f);
    FieldCons(a, [b, c, d, e, f]);
    assert [a] + [b, c, d, e, f] == [a, b, c, d, e, f];
  }

  /** Every layout whose literals have their fixed widths is 16 binary digits wide. */
  lemma LayoutWidth(l: Layout)
    requires LayoutOk(l)
    ensures TotalWidth(Fields(l)) == 16
  {
    match l
    case Transfer(select, bit) => Measures6(Bits("0010"), Bits(select), Bits(bit), Bits("0"), Reg(2), Reg(1));
    case JumpImmediate => Measures4(Bits("0010"), Bits("11"), Operand(2, Immediate, 6), Reg(1));
    case ThreeRegister(opcode) => Measures4(Bits(opcode), Reg(2), Reg(3), Reg(1));
    case RegisterImmediate(opcode) => Measures3(Bits(opcode), Operand(2, Immediate, 8), Reg(1));
    case RegisterPair(sub, bit) => Measures5(Bits("1111"), Bits(sub), Bits(bit), Reg(2), Reg(1));
    case ShortOperand(sub, kind) => Measures4(Bits("1111"), Bits(sub), Operand(1, kind, 5), Reg(2));
    case Shift(bit) => Measures5(Bits("1111"), Bits("10"), Bits(bit), Operand(1, Immediate, 5), Reg(2));
    case NotDestination(bit) => Measures5(Bits("1111"), Bits("111"), Bits(bit), Bits("0000"), Reg(1));
  }

  /** The operand numbers each layout reads, in the order it writes them. */
  function OperandOrder(l: Layout): seq<nat> {
    match l
    case ThreeRegister(_) => [2, 3, 1]
    case ShortOperand(_, _) => [1, 2]
    case Shift(_) => [1, 2]
    case NotDestination(_) => [1]
    case _ => [2, 1]
  }

  lemma LayoutOperands(l: Layout)
    ensures OperandArgs(Fields(l)) == OperandOrder(l)
  {
    match l
    case Transfer(select, bit) => Measures6(Bits("0010"), Bits(select), Bits(bit), Bits("0"), Reg(2), Reg(1));
    case JumpImmediate => Measures4(Bits("0010"), Bits("11"), Operand(2, Immediate, 6), Reg(1));
    case ThreeRegister(opcode) => Measures4(Bits(opcode), Reg(2), Reg(3), Reg(1));
    case RegisterImmediate(opcode) => Measures3(Bits(opcode), Operand(2, Immediate, 8), Reg(1));
    case RegisterPair(sub, bit) => Measures5(Bits("1111"), Bits(sub), Bits(bit), Reg(2), Reg(1));
    case ShortOperand(sub, kind) => Measures4(Bits("1111"), Bits(sub), Operand(1, kind, 5), Reg(2));
    case Shift(bit) => Measures5(Bits("1111"), Bits("10"), Bits(bit), Operand(1, Immediate, 5), Reg(2));
    case NotDestination(bit) => Measures5(Bits("1111"), Bits("111"), Bits(bit), Bits("0000"), Reg(1));
  }

  /** Each layout's operand order is a permutation of 1 to Arity(l). */
  lemma OrderIsPermutation(l: Layout)
    ensures |OperandOrder(l)| == Arity(l)
    ensures forall a :: a in OperandOrder(l) <==> 1 <= a <= Arity(l)
  {
  }

  /** The literals of a well-formed layout are binary, its operand fields of the ISA's widths. */
  lemma LayoutFieldsOk(l: Layout)
    requires LayoutOk(l)
    ensures FieldsOk(Fields(l))
  {
  }

  /** The literals of the layout table have the widths their shapes fix. */
  lemma TableConsistent(m: Mnemonic)
    ensures LayoutOk(LayoutOf(m))
  {
  }

  /** The layout table agrees with the operand-count table. */
  lemma TableArity(m: Mnemonic)
    ensures Arity(LayoutOf(m)) == ArgCount(m)
  {
  }

  /** Every field of a layout is well formed. */
  lemma FormatFieldsOk(m: Mnemonic)
    ensures FieldsOk(Format(m))
  {
    FormatWellFormed(m);
  }

  /**
   * Every mnemonic's branch writes 16 binary digits, starting with a
   * 4-digit group literal, and reads operands 1 to ArgCount(m), each once:
   * exactly the tokens the count check lets through.
   */
  lemma FormatWellFormed(m: Mnemonic)
    ensures TotalWidth(Format(m)) == 16
    ensures |Format(m)| >= 3 && Format(m)[0].Bits? && |Format(m)[0].literal| == 4
    ensures |OperandArgs(Format(m))| == ArgCount(m)
    ensures forall a :: a in OperandArgs(Format(m)) <==> 1 <= a <= ArgCount(m)
    ensures FieldsOk(Format(m))
  {
    TableConsistent(m);
    TableArity(m);
    LayoutWidth(LayoutOf(m));
    LayoutOperands(LayoutOf(m));
    OrderIsPermutation(LayoutOf(m));
    LayoutFieldsOk(LayoutOf(m));
  }

  /** Looking up a mnemonic's name finds that mnemonic. */
  lemma CandidateName(m: Mnemonic)
    ensures Candidate(Name(m)) == Some(m)
  {
  }

  /** No two mnemonics share a name. */
  lemma NamesDistinct(a: Mnemonic, b: Mnemonic)
    ensures Name(a) == Name(b) ==> a == b
  {
    CandidateName(a);
    CandidateName(b);
  }

  /** Each position holds a different key. */
  lemma PositionOfKey(k: nat)
    requires k < TableSize
    ensures Position(KeyAt(k)) == k
  {
  }

  /** The search finds the first key with the name, wherever it stands. */
  lemma {:induction false} FindAt(name: string, k: nat, j: nat)
    requires k <= j < TableSize && Name(KeyAt(j)) == name
    requires forall i :: k <= i < j ==> Name(KeyAt(i)) != name
    ensures Find(name, k) == Some(KeyAt(j))
    decreases j - k
  {
    if k < j {
      FindAt(name, k + 1, j);
    }
  }

  /** Each key of the table is found under its own name. */
  lemma LookupName(m: Mnemonic)
    ensures Lookup(Name(m)) == Some(m)
  {
    var j := Position(m);
    forall i | 0 <= i < j ensures Name(KeyAt(i)) != Name(m) {
      NamesDistinct(KeyAt(i), m);
      PositionOfKey(i);
    }
    FindAt(Name(m), 0, j);
  }

  /** A mnemonic is a lower-case word: letters, with a digit inside `ntr2c` and `ntd2c`. */
  lemma NameShape(m: Mnemonic)
    ensures |Name(m)| >= 3 && 'a' <= Name(m)[0] <= 'z'
    ensures forall i :: 0 <= i < |Name(m)| ==> 'a' <= Name(m)[i] <= 'z' || '0' <= Name(m)[i] <= '9'
  {
  }

  /**
   * The loads, stores and jumps share the group literal `0010`, and
   * everything from `cmr` on shares `1111`.
   */
  lemma Groups(m: Mnemonic)
    ensures Format(m)[0] == Bits("0010") <==> InGroup0010(m)
    ensures Format(m)[0] == Bits("1111") <==> InGroup1111(m)
  {
  }

  /** `a` and `b` are one mnemonic, or `add`/`adr`, or `sub`/`sur`. */
  predicate SameOrSecondName(a: Mnemonic, b: Mnemonic) {
    a == b || {a, b} == {Add, Adr} || {a, b} == {Sub, Sur}
  }

  /** Only the second names share a layout: the table is otherwise one to one. */
  lemma LayoutsDistinct(a: Mnemonic, b: Mnemonic)
    requires LayoutOf(a) == LayoutOf(b)
    ensures SameOrSecondName(a, b)
  {
  }

  /**
   * The leading literals that tell the layouts apart: the group, then for
   * groups `0010` and `1111` the selector and the bit that follow it.
   */
  function Tag(l: Layout): seq<string> {
    match l
    case Transfer(select, bit) => ["0010", select, bit]
    case JumpImmediate => ["0010", "11"]
    case ThreeRegister(opcode) => [opcode]
    case RegisterImmediate(opcode) => [opcode]
    case RegisterPair(sub, bit) => ["1111", sub, bit]
    case ShortOperand(sub, _) => ["1111", sub]
    case Shift(bit) => ["1111", "10", bit]
    case NotDestination(bit) => ["1111", "111", bit]
  }

  /** The tag of a layout is the run of literals its fields start with. */
  lemma TagLeadsFields(l: Layout)
    ensures |Tag(l)| <= |Fields(l)|
    ensures forall i :: 0 <= i < |Tag(l)| ==> Fields(l)[i] == Bits(Tag(l)[i])
  {
  }

  /**
   * No mnemonic's tag starts another's, except between second names: the
   * leading literals alone determine the mnemonic up to `adr` and `sur`.
   */
  lemma TagsDistinct(a: Mnemonic, b: Mnemonic)
    requires Tag(LayoutOf(a)) <= Tag(LayoutOf(b))
    ensures SameOrSecondName(a, b)
  {
    var ta, tb := Tag(LayoutOf(a)), Tag(LayoutOf(b));
    assert ta[0] == tb[0];
    assert |ta| > 1 ==> ta[1] == tb[1];
    assert |ta| > 2 ==> ta[2] == tb[2];
    assert LayoutOf(a) == LayoutOf(b);
    LayoutsDistinct(a, b);
  }

  /** `adr` and `sur` are second names of `add` and `sub`: same layout. */
  lemma SecondNames()
    ensures LayoutOf(Adr) == LayoutOf(Add)
    ensures LayoutOf(Sur) == LayoutOf(Sub)
  {
  }
}
