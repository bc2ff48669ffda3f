/**
 * The work of `parseInstruction` on one line of assembly text, as a pure
 * function from the line to the bit string it appends or the error it
 * raises.
 */
module Encoder {
  import opened Results
  import opened Text
  import opened Numerals
  import opened Isa

  /** Why a line is refused. */
  datatype Error =
    | UnknownInstruction(name: string) // the `KeyError` of the count table
    | ArgumentCount(name: string)      // `AssemblySyntaxError`: wrong number of operands
    | BadNumber(cause: ValueError)     // a `ValueError` from `int`

  /** `int(t)` on a token, with the error Python raises for it. */
  function Decimal(t: string): Result<int, ValueError> {
    match ParseDecimal(t)
    case Some(v) => Ok(v)
    case None => Err(InvalidLiteral(t, 10))
  }

  /**
   * The value an operand token stands for: a register token with every
   * `_` and `r` deleted read in decimal, an immediate read in decimal as
   * it stands, a flag code read by `hexToInt`.
   */
  function OperandValue(kind: OperandKind, token: string): Result<int, ValueError> {
    match kind
    case Register => Decimal(CleanRegister(token))
    case Immediate => Decimal(token)
    case FlagCode => HexToInt(token)
  }

  /** A value, or the error reading it, written in binary cut to `width` digits. */
  function InField(value: Result<int, ValueError>, width: nat): Result<string, ValueError> {
    if value.Ok? then Ok(BinField(value.value, width)) else Err(value.error)
  }

  /** `intToBin(t, n)` writes the decimal value of `t`, and fails exactly when `int(t)` does. */
  lemma IntToBinDecimal(t: string, n: nat)
    ensures IntToBin(t, n) == InField(Decimal(t), n)
  {
    IntToBinReads(t, n);
  }

  /**
   * The text one operand slot of a branch's f-string produces: `intToBin`
   * of the cleaned register token or of the immediate token; a flag code is
   * read by `hexToInt` and written back with `str` before `intToBin` reads it.
   * Each slot writes its token's value in binary cut to the field width,
   * and fails exactly when the token is no number.
   */
  function RenderOperand(kind: OperandKind, token: string, width: nat): (r: Result<string, ValueError>)
    ensures r == InField(OperandValue(kind, token), width)
  {
    match kind
    case Register =>
      IntToBinDecimal(CleanRegister(token), width);
      IntToBin(CleanRegister(token), width)
    case Immediate =>
      IntToBinDecimal(token, width);
      IntToBin(token, width)
    case FlagCode =>
      match HexToInt(token)
      case Ok(v) =>
        DecimalRoundTrip(v);
        IntToBinDecimal(ToDecimal(v), width);
        IntToBin(ToDecimal(v), width)
      case Err(e) => Err(e)
  }

  /** The text one slot of a branch's f-string produces: what its field stands for. */
  function RenderField(f: Field, ops: seq<string>): (r: Result<string, ValueError>)
    requires f.Operand? ==> 1 <= f.arg <= |ops|
  {
    if f.Bits? then Ok(f.literal) else RenderOperand(f.kind, ops[f.arg - 1], f.width)
  }

  /** Field `k` is the first, in writing order, whose slot fails. */
  predicate FirstFailure(fs: seq<Field>, ops: seq<string>, k: int)
    requires OperandsWithin(fs, |ops|)
  {
    && 0 <= k < |fs|
    && RenderField(fs[k], ops).Err?
    && forall j :: 0 <= j < k ==> RenderField(fs[j], ops).Ok?
  }

  /**
   * The slots of an f-string, evaluated left to right; the first one that
   * raises ends the evaluation. The result is every field's meaning, or
   * the error of the first field that has none.
   */
  function RenderFields(fs: seq<Field>, ops: seq<string>): (r: Result<seq<string>, ValueError>)
    requires OperandsWithin(fs, |ops|)
    ensures r.Ok? <==> forall i :: 0 <= i < |fs| ==> RenderField(fs[i], ops).Ok?
    ensures r.Ok? ==>
      |r.value| == |fs| && forall i :: 0 <= i < |fs| ==> r.value[i] == RenderField(fs[i], ops).value
    ensures r.Err? ==> exists k :: FirstFailure(fs, ops, k) && r.error == RenderField(fs[k], ops).error
  {
    if fs == [] then Ok([])
    else
      assert OperandsWithin(fs[1..], |ops|) by {
        forall i | 0 <= i < |fs| - 1 && fs[1..][i].Operand?
          ensures 1 <= fs[1..][i].arg <= |ops|
        {
          assert fs[1..][i] == fs[i + 1];
        }
      }
      match RenderField(fs[0], ops)
      case Err(e) =>
        assert FirstFailure(fs, ops, 0);
        Err(e)
      case Ok(text) =>
        match RenderFields(fs[1..], ops)
        case Err(e) =>
          var k :| FirstFailure(fs[1..], ops, k) && e == RenderField(fs[1..][k], ops).error;
          assert FirstFailure(fs, ops, k + 1);
          Err(e)
        case Ok(texts) =>
          Ok([text] + texts)
  }

  /**
   * One branch of `parseInstruction` after the checks: the f-string of
   * mnemonic `m` on its operand tokens. The count check has made sure
   * there are as many tokens as the table says.
   */
  function Encode(m: Mnemonic, ops: seq<string>): (r: Result<string, Error>)
    requires |ops| == ArgCount(m)
    ensures r.Err? ==> r.error.BadNumber?
  {
    match RenderFields(Format(m), ops)
    case Ok(parts) => Ok(Join(parts, '_'))
    case Err(e) => Err(BadNumber(e))
  }

  /** `ins.strip().split(" ")`. */
  function Words(ins: string): (words: seq<string>)
    ensures |words| >= 1
  {
    Split(Strip(ins), ' ')
  }

  /**
   * `parseInstruction` on one line: the bit string it appends, or the
   * error it raises. The split always has a first word, so the guard for
   * an empty split has nothing to catch.
   */
  function ParseLine(ins: string): Result<string, Error> {
    var words := Words(ins);
    var name := Lower(words[0]);
    match Lookup(name)
    case None => Err(UnknownInstruction(name))
    case Some(m) =>
      if ArgCount(m) != |words| - 1 then Err(ArgumentCount(name))
      else Encode(m, words[1..])
  }

  // ---- Properties of the encoding ----

  /** Text made only of binary digits and the minus sign `intToBin` may keep. */
  predicate BinaryText(s: string) {
    forall c :: c in s ==> c == '0' || c == '1' || c == '-'
  }

  /** A field's text is binary: a binary literal, or the output of `intToBin`. */
  lemma MeaningIsBinary(f: Field, ops: seq<string>)
    requires f.Operand? ==> 1 <= f.arg <= |ops|
    requires f.Bits? ==> IsBits(f.literal)
    requires RenderField(f, ops).Ok?
    ensures BinaryText(RenderField(f, ops).value)
  {
    if f.Operand? {
      BinFieldChars(OperandValue(f.kind, ops[f.arg - 1]).value, f.width);
    } else {
      forall c | c in f.literal
        ensures c == '0' || c == '1'
      {
        var i :| 0 <= i < |f.literal| && f.literal[i] == c;
        assert DigitOf(f.literal[i]) < 2;
      }
    }
  }

  /** The texts of a successful encoding, one per field of the layout. */
  function Parts(m: Mnemonic, ops: seq<string>): (parts: seq<string>)
    requires |ops| == ArgCount(m)
    requires Encode(m, ops).Ok?
    ensures |parts| == |Format(m)|
    ensures forall i :: 0 <= i < |parts| ==> parts[i] == RenderField(Format(m)[i], ops).value
    ensures Encode(m, ops).value == Join(parts, '_')
  {
    RenderFields(Format(m), ops).value
  }

  /** Every text of a successful encoding is binary, so none holds a `_`. */
  lemma PartsBinary(m: Mnemonic, ops: seq<string>)
    requires |ops| == ArgCount(m)
    requires Encode(m, ops).Ok?
    ensures forall k :: 0 <= k < |Parts(m, ops)| ==> BinaryText(Parts(m, ops)[k]) && '_' !in Parts(m, ops)[k]
  {
    FormatWellFormed(m);
    forall k | 0 <= k < |Parts(m, ops)|
      ensures BinaryText(Parts(m, ops)[k])
    {
      MeaningIsBinary(Format(m)[k], ops);
    }
  }

  /**
   * An encoding succeeds exactly when every operand token is a number;
   * it then splits at `_` into the fields of the layout, each the literal
   * or the operand's value in binary cut to the field width. It fails
   * with the error of the first field, in writing order, that has none.
   */
  lemma EncodeFields(m: Mnemonic, ops: seq<string>)
    requires |ops| == ArgCount(m)
    ensures Encode(m, ops).Ok? <==> forall i :: 0 <= i < |Format(m)| ==> RenderField(Format(m)[i], ops).Ok?
    ensures Encode(m, ops).Ok? ==> Split(Encode(m, ops).value, '_') == Parts(m, ops)
    ensures Encode(m, ops).Err? ==>
      exists k :: FirstFailure(Format(m), ops, k) && Encode(m, ops).error == BadNumber(RenderField(Format(m)[k], ops).error)
  {
    if Encode(m, ops).Ok? {
      EncodeSplits(m, ops);
    }
  }

  /** A successful encoding splits at `_` into the texts of its fields. */
  lemma EncodeSplits(m: Mnemonic, ops: seq<string>)
    requires |ops| == ArgCount(m)
    requires Encode(m, ops).Ok?
    ensures Split(Encode(m, ops).value, '_') == Parts(m, ops)
  {
    PartsBinary(m, ops);
    SplitJoin(Parts(m, ops), '_');
  }

  /** Texts no longer than their fields' widths add up to no more than the layout's width. */
  lemma {:induction false} TotalLengthWithin(parts: seq<string>, fs: seq<Field>)
    requires |parts| == |fs|
    requires forall i :: 0 <= i < |fs| ==> |parts[i]| <= Width(fs[i])
    ensures TotalLength(parts) <= TotalWidth(fs)
    ensures TotalLength(parts) == TotalWidth(fs) <==> forall i :: 0 <= i < |fs| ==> |parts[i]| == Width(fs[i])
    decreases |fs|
  {
    if fs != [] {
      TotalLengthWithin(parts[1..], fs[1..]);
      assert forall i :: 0 < i < |fs| ==> parts[1..][i - 1] == parts[i] && fs[1..][i - 1] == fs[i];
    }
  }

  /**
   * A successful encoding holds at most 16 binary digits (and `-` signs)
   * besides its `_` separators, exactly 16 when every field is written to
   * its full width: operand fields are never padded.
   */
  lemma EncodeWidth(m: Mnemonic, ops: seq<string>)
    requires |ops| == ArgCount(m)
    requires Encode(m, ops).Ok?
    ensures |DeleteAll(Encode(m, ops).value, "_")| <= 16
    ensures |DeleteAll(Encode(m, ops).value, "_")| == 16 <==>
      forall i :: 0 <= i < |Format(m)| ==> |Parts(m, ops)[i]| == Width(Format(m)[i])
  {
    FormatWellFormed(m);
    DigitCount(m, ops);
    PartsWithin(m, ops);
    TotalLengthWithin(Parts(m, ops), Format(m));
  }

  /** Deleting the separators of an encoding leaves the field texts, end to end. */
  lemma DigitCount(m: Mnemonic, ops: seq<string>)
    requires |ops| == ArgCount(m)
    requires Encode(m, ops).Ok?
    ensures |DeleteAll(Encode(m, ops).value, "_")| == TotalLength(Parts(m, ops))
  {
    var parts := Parts(m, ops);
    PartsBinary(m, ops);
    DeleteSeparatorOfJoin(parts, '_');
    ConcatLength(parts);
  }

  /** No field text is longer than its field. */
  lemma PartsWithin(m: Mnemonic, ops: seq<string>)
    requires |ops| == ArgCount(m)
    requires Encode(m, ops).Ok?
    ensures forall i :: 0 <= i < |Format(m)| ==> |Parts(m, ops)[i]| <= Width(Format(m)[i])
  {
    var parts, fs := Parts(m, ops), Format(m);
    FormatFieldsOk(m);
    forall i | 0 <= i < |fs|
      ensures |parts[i]| <= Width(fs[i])
    {
      assert fs[i].Operand? ==> fs[i].width >= 1;
      FieldWithin(fs[i], ops);
    }
  }

  /** A field's text is no longer than the field. */
  lemma FieldWithin(f: Field, ops: seq<string>)
    requires f.Operand? ==> 1 <= f.arg <= |ops| && f.width >= 1
    requires RenderField(f, ops).Ok?
    ensures |RenderField(f, ops).value| <= Width(f)
  {
    if f.Operand? {
      BinFieldWidth(OperandValue(f.kind, ops[f.arg - 1]).value, f.width);
    }
  }

  /** Every character of a successful encoding is a binary digit, `-` or `_`. */
  lemma EncodeChars(m: Mnemonic, ops: seq<string>)
    requires |ops| == ArgCount(m)
    requires Encode(m, ops).Ok?
    ensures forall c :: c in Encode(m, ops).value ==> c == '0' || c == '1' || c == '-' || c == '_'
  {
    var parts := Parts(m, ops);
    PartsBinary(m, ops);
    forall c | c in Encode(m, ops).value
      ensures c == '0' || c == '1' || c == '-' || c == '_'
    {
      JoinChars(parts, '_', c);
    }
  }

  /** A successful encoding starts with the 4-digit group literal and a `_`. */
  lemma EncodeStart(m: Mnemonic, ops: seq<string>)
    requires |ops| == ArgCount(m)
    requires Encode(m, ops).Ok?
    ensures |Encode(m, ops).value| > 4 && Encode(m, ops).value[4] == '_'
    ensures |Format(m)| >= 1 && Format(m)[0].Bits? && Encode(m, ops).value[..4] == Format(m)[0].literal
  {
    var parts := Parts(m, ops);
    FormatWellFormed(m);
    var s := Encode(m, ops).value;
    assert s == parts[0] + ['_'] + Join(parts[1..], '_');
    assert s[..4] == parts[0];
  }

  /**
   * The group a successful encoding starts with: `0010` for the loads,
   * stores and jumps, `1111` from `cmr` on.
   */
  lemma EncodeGroup(m: Mnemonic, ops: seq<string>)
    requires |ops| == ArgCount(m)
    requires Encode(m, ops).Ok?
    ensures |Encode(m, ops).value| > 4
    ensures Encode(m, ops).value[..4] == "0010" <==> InGroup0010(m)
    ensures Encode(m, ops).value[..4] == "1111" <==> InGroup1111(m)
  {
    EncodeStart(m, ops);
    Groups(m);
  }

  /** The text of a register operand: its cleaned token's value, four digits at most. */
  function RegisterText(token: string): Result<string, ValueError> {
    InField(OperandValue(Register, token), 4)
  }

  /** An encoding fails exactly when one of its operand tokens does not read as a number. */
  lemma EncodeOperands(m: Mnemonic, ops: seq<string>)
    requires |ops| == ArgCount(m)
    ensures Encode(m, ops).Ok? <==>
      forall i :: 0 <= i < |Format(m)| && Format(m)[i].Operand? ==>
        OperandValue(Format(m)[i].kind, ops[Format(m)[i].arg - 1]).Ok?
  {
    var fs := Format(m);
    EncodeFields(m, ops);
    forall i | 0 <= i < |fs|
      ensures RenderField(fs[i], ops).Ok? <==> (fs[i].Operand? ==> OperandValue(fs[i].kind, ops[fs[i].arg - 1]).Ok?)
    {
      FieldReads(fs[i], ops);
    }
  }

  /** A field's slot fails exactly when it is an operand whose token is no number. */
  lemma FieldReads(f: Field, ops: seq<string>)
    requires f.Operand? ==> 1 <= f.arg <= |ops|
    ensures RenderField(f, ops).Ok? <==> (f.Operand? ==> OperandValue(f.kind, ops[f.arg - 1]).Ok?)
  {
  }

  /** The three-register forms take `rd rs1 rs2` and write `rs1_rs2_rd` after the opcode. */
  lemma ThreeRegisterPlacement(m: Mnemonic, opcode: string, ops: seq<string>)
    requires LayoutOf(m) == ThreeRegister(opcode)
    requires |ops| == ArgCount(m) && Encode(m, ops).Ok?
    ensures |ops| == 3 && |Parts(m, ops)| == 4 && Parts(m, ops)[0] == opcode
    ensures RegisterText(ops[1]) == Ok(Parts(m, ops)[1])
    ensures RegisterText(ops[2]) == Ok(Parts(m, ops)[2])
    ensures RegisterText(ops[0]) == Ok(Parts(m, ops)[3])
  {
    TableArity(m);
    var fs := Format(m);
    assert fs == [Bits(opcode), Reg(2), Reg(3), Reg(1)];
    assert RenderFields(fs, ops).Ok?;
    assert RenderField(fs[1], ops).Ok? && RenderField(fs[2], ops).Ok? && RenderField(fs[3], ops).Ok?;
  }

  /**
   * `cmr`, `ntr` and `ntr2c` take two registers and write the second
   * before the first.
   */
  lemma RegisterPairPlacement(m: Mnemonic, sub: string, bit: string, ops: seq<string>)
    requires LayoutOf(m) == RegisterPair(sub, bit)
    requires |ops| == ArgCount(m) && Encode(m, ops).Ok?
    ensures |ops| == 2 && Parts(m, ops)[..3] == ["1111", sub, bit] && |Parts(m, ops)| == 5
    ensures RegisterText(ops[1]) == Ok(Parts(m, ops)[3])
    ensures RegisterText(ops[0]) == Ok(Parts(m, ops)[4])
  {
    TableArity(m);
    var fs := Format(m);
    assert fs == [Bits("1111"), Bits(sub), Bits(bit), Reg(2), Reg(1)];
    assert RenderFields(fs, ops).Ok?;
    assert RenderField(fs[3], ops).Ok? && RenderField(fs[4], ops).Ok?;
  }

  /**
   * `cmi`, `brc` and `brr` take their short operand first and a register
   * second, and write the short operand first; `brc`/`brr` read theirs with
   * `hexToInt`, so that `10` stands for 16.
   */
  lemma ShortOperandPlacement(m: Mnemonic, sub: string, kind: OperandKind, ops: seq<string>)
    requires LayoutOf(m) == ShortOperand(sub, kind)
    requires |ops| == ArgCount(m) && Encode(m, ops).Ok?
    ensures |ops| == 2 && Parts(m, ops)[..2] == ["1111", sub] && |Parts(m, ops)| == 4
    ensures InField(OperandValue(kind, ops[0]), 5) == Ok(Parts(m, ops)[2])
    ensures RegisterText(ops[1]) == Ok(Parts(m, ops)[3])
  {
    TableArity(m);
    var fs := Format(m);
    assert fs == [Bits("1111"), Bits(sub), Operand(1, kind, 5), Reg(2)];
    assert RenderFields(fs, ops).Ok?;
    assert RenderField(fs[2], ops).Ok? && RenderField(fs[3], ops).Ok?;
  }

  /**
   * The loads, stores and register jumps take `rd rs1` and write `rs1`
   * before `rd`; the f-string evaluates the `rs1` slot first, so a bad
   * `rs1` is the error reported when both are bad.
   */
  lemma TransferPlacement(m: Mnemonic, select: string, bit: string, ops: seq<string>)
    requires LayoutOf(m) == Transfer(select, bit)
    requires |ops| == ArgCount(m) && Encode(m, ops).Ok?
    ensures |ops| == 2 && Parts(m, ops)[..4] == ["0010", select, bit, "0"] && |Parts(m, ops)| == 6
    ensures RegisterText(ops[1]) == Ok(Parts(m, ops)[4])
    ensures RegisterText(ops[0]) == Ok(Parts(m, ops)[5])
  {
    TableArity(m);
    var fs := Format(m);
    assert fs == [Bits("0010"), Bits(select), Bits(bit), Bits("0"), Reg(2), Reg(1)];
    assert RenderFields(fs, ops).Ok?;
    assert RenderField(fs[4], ops).Ok? && RenderField(fs[5], ops).Ok?;
  }

  /** `jmi rd imm` writes the immediate in six digits at most, then `rd`. */
  lemma JumpImmediatePlacement(ops: seq<string>)
    requires |ops| == ArgCount(Jmi) && Encode(Jmi, ops).Ok?
    ensures |ops| == 2 && Parts(Jmi, ops)[..2] == ["0010", "11"] && |Parts(Jmi, ops)| == 4
    ensures InField(OperandValue(Immediate, ops[1]), 6) == Ok(Parts(Jmi, ops)[2])
    ensures RegisterText(ops[0]) == Ok(Parts(Jmi, ops)[3])
  {
    var fs := Format(Jmi);
    assert fs == [Bits("0010"), Bits("11"), Operand(2, Immediate, 6), Reg(1)];
    assert RenderFields(fs, ops).Ok?;
    assert RenderField(fs[2], ops).Ok? && RenderField(fs[3], ops).Ok?;
  }

  /** The immediate forms take `rd imm` and write the immediate in eight digits at most, then `rd`. */
  lemma RegisterImmediatePlacement(m: Mnemonic, opcode: string, ops: seq<string>)
    requires LayoutOf(m) == RegisterImmediate(opcode)
    requires |ops| == ArgCount(m) && Encode(m, ops).Ok?
    ensures |ops| == 2 && Parts(m, ops)[0] == opcode && |Parts(m, ops)| == 3
    ensures InField(OperandValue(Immediate, ops[1]), 8) == Ok(Parts(m, ops)[1])
    ensures RegisterText(ops[0]) == Ok(Parts(m, ops)[2])
  {
    TableArity(m);
    var fs := Format(m);
    assert fs == [Bits(opcode), Operand(2, Immediate, 8), Reg(1)];
    assert RenderFields(fs, ops).Ok?;
    assert RenderField(fs[1], ops).Ok? && RenderField(fs[2], ops).Ok?;
  }

  /** `shi`/`shila` take `imm rd` and write the shift amount in five digits at most, then `rd`. */
  lemma ShiftPlacement(m: Mnemonic, bit: string, ops: seq<string>)
    requires LayoutOf(m) == Shift(bit)
    requires |ops| == ArgCount(m) && Encode(m, ops).Ok?
    ensures |ops| == 2 && Parts(m, ops)[..3] == ["1111", "10", bit] && |Parts(m, ops)| == 5
    ensures InField(OperandValue(Immediate, ops[0]), 5) == Ok(Parts(m, ops)[3])
    ensures RegisterText(ops[1]) == Ok(Parts(m, ops)[4])
  {
    TableArity(m);
    var fs := Format(m);
    assert fs == [Bits("1111"), Bits("10"), Bits(bit), Operand(1, Immediate, 5), Reg(2)];
    assert RenderFields(fs, ops).Ok?;
    assert RenderField(fs[3], ops).Ok? && RenderField(fs[4], ops).Ok?;
  }

  /** `ntd`/`ntd2c` take one register and write it after four zeros. */
  lemma NotDestinationPlacement(m: Mnemonic, bit: string, ops: seq<string>)
    requires LayoutOf(m) == NotDestination(bit)
    requires |ops| == ArgCount(m) && Encode(m, ops).Ok?
    ensures |ops| == 1 && Parts(m, ops)[..4] == ["1111", "111", bit, "0000"] && |Parts(m, ops)| == 5
    ensures RegisterText(ops[0]) == Ok(Parts(m, ops)[4])
  {
    TableArity(m);
    var fs := Format(m);
    assert fs == [Bits("1111"), Bits("111"), Bits(bit), Bits("0000"), Reg(1)];
    assert RenderFields(fs, ops).Ok?;
    assert RenderField(fs[4], ops).Ok?;
  }

  /**
   * Mnemonics with the same layout take the same operands and encode them
   * alike; `adr` and `sur` are such second names of `add` and `sub`.
   */
  lemma SameLayoutEncodesAlike(a: Mnemonic, b: Mnemonic, ops: seq<string>)
    requires LayoutOf(a) == LayoutOf(b) && |ops| == ArgCount(a)
    ensures |ops| == ArgCount(b) && Encode(a, ops) == Encode(b, ops)
  {
    TableArity(a);
    TableArity(b);
  }

  // ---- Reading a line ----

  /**
   * A line ends where its last part ends when the parts are joined.
   */
  lemma JoinLast(parts: seq<string>, sep: char)
    requires |parts| >= 1 && parts[|parts| - 1] != []
    ensures Join(parts, sep) != [] && Join(parts, sep)[|Join(parts, sep)| - 1] == parts[|parts| - 1][|parts[|parts| - 1]| - 1]
  {
    if |parts| > 1 {
      var init := parts[..|parts| - 1];
      assert parts == init + [parts[|parts| - 1]];
      JoinSnoc(init, parts[|parts| - 1], sep);
    }
  }

  /** A join starts where its first part starts. */
  lemma JoinFirst(parts: seq<string>, sep: char)
    requires |parts| >= 1 && parts[0] != []
    ensures Join(parts, sep) != [] && Join(parts, sep)[0] == parts[0][0]
  {
  }

  /** Words with no whitespace, joined by single spaces, split back into those words. */
  lemma WordsOfJoin(parts: seq<string>)
    requires |parts| >= 1
    requires forall k :: 0 <= k < |parts| ==> parts[k] != []
    requires forall k, c :: 0 <= k < |parts| && c in parts[k] ==> !IsSpace(c)
    ensures Words(Join(parts, ' ')) == parts
  {
    var line := Join(parts, ' ');
    JoinFirst(parts, ' ');
    JoinLast(parts, ' ');
    var first, last := parts[0], parts[|parts| - 1];
    assert first[0] in first;
    assert last[|last| - 1] in last;
    StripUnchanged(line);
    forall k | 0 <= k < |parts| ensures ' ' !in parts[k] {
      assert IsSpace(' ');
    }
    SplitJoin(parts, ' ');
    assert Words(line) == Split(Strip(line), ' ');
  }

  /** A word that lowers to a mnemonic is not empty and holds no whitespace. */
  lemma MnemonicWord(m: Mnemonic, w: string)
    requires Lower(w) == Name(m)
    ensures w != [] && forall c :: c in w ==> !IsSpace(c)
  {
    NameShape(m);
    LowerChars(w);
    forall c | c in w ensures !IsSpace(c) {
      var i :| 0 <= i < |w| && w[i] == c;
      assert LowerChar(w[i]) == Name(m)[i];
    }
  }

  /**
   * A line written as the mnemonic, in any letter case, and its operand
   * tokens, each with a single space before it, is encoded by that
   * mnemonic's branch on exactly those tokens.
   */
  lemma ParseWritten(m: Mnemonic, w: string, ops: seq<string>)
    requires Lower(w) == Name(m) && |ops| == ArgCount(m)
    requires forall k :: 0 <= k < |ops| ==> ops[k] != []
    requires forall k, c :: 0 <= k < |ops| && c in ops[k] ==> !IsSpace(c)
    ensures ParseLine(Join([w] + ops, ' ')) == Encode(m, ops)
  {
    MnemonicWord(m, w);
    LookupName(m);
    var parts := [w] + ops;
    forall k, c | 0 <= k < |parts| && c in parts[k] ensures !IsSpace(c) {
      if k > 0 {
        assert parts[k] == ops[k - 1];
      }
    }
    WordsOfJoin(parts);
    assert parts[1..] == ops;
  }

  /**
   * `parseInstruction` raises `KeyError` exactly for a first word that,
   * in lower case, is no mnemonic.
   */
  lemma ParseLineUnknown(ins: string)
    ensures var name := Lower(Words(ins)[0]);
      ParseLine(ins) == Err(UnknownInstruction(name)) <==> forall m :: Name(m) != name
  {
    var name := Lower(Words(ins)[0]);
    match Lookup(name)
    case None =>
      forall m ensures Name(m) != name {
        LookupName(m);
      }
    case Some(m) =>
      ParseLineKnown(ins, m);
      KnownIsNotUnknown(ins, m);
  }

  lemma KnownIsNotUnknown(ins: string, m: Mnemonic)
    requires Name(m) == Lower(Words(ins)[0])
    ensures ParseLine(ins) != Err(UnknownInstruction(Name(m)))
  {
    ParseLineKnown(ins, m);
  }

  /**
   * For a first word that is a mnemonic, `parseInstruction` checks the
   * operand count and otherwise runs that mnemonic's branch on the
   * remaining words.
   */
  lemma ParseLineKnown(ins: string, m: Mnemonic)
    requires Name(m) == Lower(Words(ins)[0])
    ensures var words := Words(ins);
      ParseLine(ins) == if |words| - 1 == ArgCount(m) then Encode(m, words[1..]) else Err(ArgumentCount(Name(m)))
  {
    LookupName(m);
  }

  /**
   * A line that assembles names a mnemonic, has that mnemonic's operand
   * count, and gives its branch's encoding.
   */
  lemma ParsedLine(ins: string)
    requires ParseLine(ins).Ok?
    ensures Lookup(Lower(Words(ins)[0])).Some?
    ensures var words := Words(ins); var m := Lookup(Lower(words[0])).value;
      |words| - 1 == ArgCount(m) && ParseLine(ins) == Encode(m, words[1..])
  {
  }

  // ---- Worked examples ----

  /** An encoding whose every field reads is the join of the field texts. */
  lemma EncodeOk(m: Mnemonic, ops: seq<string>, parts: seq<string>)
    requires |ops| == ArgCount(m) && |parts| == |Format(m)|
    requires forall i :: 0 <= i < |parts| ==> RenderField(Format(m)[i], ops) == Ok(parts[i])
    ensures Encode(m, ops) == Ok(Join(parts, '_'))
  {
    var r := RenderFields(Format(m), ops);
    assert r.Ok?;
    assert r.value == parts;
  }

  /** The error of an encoding is that of its first field that does not read. */
  lemma EncodeFailsAt(m: Mnemonic, ops: seq<string>, k: nat, e: ValueError)
    requires |ops| == ArgCount(m) && k < |Format(m)|
    requires RenderField(Format(m)[k], ops) == Err(e)
    requires forall j :: 0 <= j < k ==> RenderField(Format(m)[j], ops).Ok?
    ensures Encode(m, ops) == Err(BadNumber(e))
  {
    var r := RenderFields(Format(m), ops);
    assert r.Err?;
    var k' :| FirstFailure(Format(m), ops, k') && r.error == RenderField(Format(m)[k'], ops).error;
    assert k' == k;
  }

  /**
   * `ldr rx ry` fails on `ry`, its second operand: the f-string of the load
   * evaluates the source slot before the destination slot.
   */
  lemma ExampleLoadReadsSourceFirst(ops: seq<string>)
    requires ops == ["rx", "ry"]
    ensures Encode(Ldr, ops) == Err(BadNumber(InvalidLiteral("y", 10)))
  {
    var fs := Format(Ldr);
    assert fs == [Bits("0010"), Bits("00"), Bits("0"), Bits("0"), Reg(2), Reg(1)];
    assert CleanRegister("ry") == "y";
    assert ParseDecimal("y") == None;
    EncodeFailsAt(Ldr, ops, 4, InvalidLiteral("y", 10));
  }

  /** A successful encoding starts with the tag of its mnemonic's layout. */
  lemma TagLeadsParts(m: Mnemonic, ops: seq<string>)
    requires |ops| == ArgCount(m)
    requires Encode(m, ops).Ok?
    ensures Tag(LayoutOf(m)) <= Parts(m, ops)
  {
    var tag, parts := Tag(LayoutOf(m)), Parts(m, ops);
    TagLeadsFields(LayoutOf(m));
    forall i | 0 <= i < |tag| ensures parts[i] == tag[i] {
      assert Format(m)[i] == Bits(tag[i]);
    }
  }

  /**
   * A bit string determines the mnemonic that wrote it, up to the second
   * names `adr` and `sur`: the only collisions of the encoding are those.
   */
  lemma EncodingDeterminesMnemonic(a: Mnemonic, opsA: seq<string>, b: Mnemonic, opsB: seq<string>)
    requires |opsA| == ArgCount(a) && |opsB| == ArgCount(b)
    requires Encode(a, opsA).Ok? && Encode(b, opsB).Ok?
    requires Encode(a, opsA).value == Encode(b, opsB).value
    ensures SameOrSecondName(a, b)
  {
    EncodeSplits(a, opsA);
    EncodeSplits(b, opsB);
    var parts := Parts(a, opsA);
    assert parts == Parts(b, opsB);
    TagLeadsParts(a, opsA);
    TagLeadsParts(b, opsB);
    var ta, tb := Tag(LayoutOf(a)), Tag(LayoutOf(b));
    if |ta| <= |tb| {
      assert ta <= tb;
      TagsDistinct(a, b);
    } else {
      assert tb <= ta;
      TagsDistinct(b, a);
    }
  }

  /** `adr` and `sur` assemble exactly as `add` and `sub`: the encoding does not tell them apart. */
  lemma SecondNamesEncodeAlike(ops: seq<string>)
    requires |ops| == 3
    ensures Add != Adr && Encode(Add, ops) == Encode(Adr, ops)
    ensures Sub != Sur && Encode(Sub, ops) == Encode(Sur, ops)
  {
    SecondNames();
    SameLayoutEncodesAlike(Add, Adr, ops);
    SameLayoutEncodesAlike(Sub, Sur, ops);
  }
}
