/** The codes of the key vocabularies as the wire spells them, and whole tokens. */
module KeyTokens {
  import opened Wrappers
  import opened Arith
  import opened Text
  import opened KeyCodes
  import opened StructureKeys

  // ---- element types

  /** What a type's code is made of: a kind, a width in bits, and for the small floats how the bits
      are shared out. */
  datatype Format =
    | Whole(signed: bool, bits: nat)
    | Float(brain: bool, bits: nat)
    | SmallFloat(bits: nat, exponent: nat, mantissa: nat, suffix: string)
    | Complex(bits: nat)
    | Single
    | Truth

  function FormatOf(d: DType): Format {
    match d
    case F16 => Float(false, 16)
    case Bf16 => Float(true, 16)
    case F32 => Float(false, 32)
    case F32Strict => Float(false, 32)
    case F64 => Float(false, 64)
    case I4 => Whole(true, 4)
    case I8 => Whole(true, 8)
    case I16 => Whole(true, 16)
    case I32 => Whole(true, 32)
    case I64 => Whole(true, 64)
    case U4 => Whole(false, 4)
    case U8 => Whole(false, 8)
    case U16 => Whole(false, 16)
    case U32 => Whole(false, 32)
    case U64 => Whole(false, 64)
    case Bool => Truth
    case B1 => Single
    case Fp8E4M3FN => SmallFloat(8, 4, 3, "fn")
    case Fp8E4M3FNUZ => SmallFloat(8, 4, 3, "fnuz")
    case Fp8E5M2 => SmallFloat(8, 5, 2, "")
    case Fp8E5M2FNUZ => SmallFloat(8, 5, 2, "fnuz")
    case F8E8M0 => SmallFloat(8, 8, 0, "")
    case F8E6M2 => SmallFloat(8, 6, 2, "")
    case F4E2M1 => SmallFloat(4, 2, 1, "")
    case F6E2M3 => SmallFloat(6, 2, 3, "")
    case F6E3M2 => SmallFloat(6, 3, 2, "")
    case Complex64 => Complex(64)
    case Complex128 => Complex(128)
  }

  function Spelled(f: Format): string {
    match f
    case Whole(signed, bits) => (if signed then "i" else "u") + Decimal(bits)
    case Float(brain, bits) => (if brain then "bf" else "f") + Decimal(bits)
    case SmallFloat(bits, e, m, suffix) => "f" + Decimal(bits) + "e" + Decimal(e) + "m" + Decimal(m) + suffix
    case Complex(bits) => "c" + Decimal(bits)
    case Single => "b" + Decimal(1)
    case Truth => "bool"
  }

  /** Every code spells the type's format out. */
  lemma DTypeSpelled(d: DType)
    ensures DTypeCode(d) == Spelled(FormatOf(d))
  {
    match FormatOf(d)
    case SmallFloat(bits, e, m, suffix) => SmallFloatSpelled(d);
    case Whole(_, _) => WholeSpelled(d);
    case _ => RestSpelled(d);
  }

  lemma RestSpelled(d: DType)
    requires !FormatOf(d).SmallFloat? && !FormatOf(d).Whole?
    ensures DTypeCode(d) == Spelled(FormatOf(d))
  {
    Digits();
  }

  lemma WholeSpelled(d: DType)
    requires FormatOf(d).Whole?
    ensures DTypeCode(d) == Spelled(FormatOf(d))
  {
    Digits();
  }

  lemma SmallFloatSpelled(d: DType)
    requires FormatOf(d).SmallFloat?
    ensures DTypeCode(d) == Spelled(FormatOf(d))
  {
    Digits();
    var f := FormatOf(d);
    var text := "f" + Decimal(f.bits) + "e" + Decimal(f.exponent) + "m" + Decimal(f.mantissa);
    assert |text| == 6 && DTypeCode(d)[..6] == text && DTypeCode(d)[6..] == f.suffix;
  }

  /** Reserved are the three eight-bit formats of the `fnuz` kind and of six exponent bits; element
      types of a scaled block are those of fewer than eight bits. */
  lemma ReservedAndElements(d: DType)
    ensures IsReserved(d) <==>
              FormatOf(d).SmallFloat? && FormatOf(d).bits == 8 &&
              (FormatOf(d).suffix == "fnuz" || FormatOf(d).exponent == 6)
    ensures IsMxElement(d) <==> FormatOf(d).SmallFloat? && FormatOf(d).bits < 8
  {
  }

  lemma Digits()
    ensures Decimal(0) == "0" && Decimal(1) == "1" && Decimal(2) == "2" && Decimal(3) == "3" && Decimal(4) == "4"
    ensures Decimal(5) == "5" && Decimal(6) == "6" && Decimal(8) == "8"
    ensures Decimal(16) == "16" && Decimal(32) == "32" && Decimal(64) == "64" && Decimal(128) == "128"
  {
    assert Decimal(12) == "12";
  }

  // ---- the other vocabularies

  /** Elementwise classes carry their arity, widths and divisors their number. */
  lemma NumberedCodes()
    ensures ClassCode(Ew1) == "ew" + Decimal(1) && ClassCode(Ew2) == "ew" + Decimal(2) &&
            ClassCode(Ew3) == "ew" + Decimal(3)
    ensures IdxCode(Idx32) == "ix" + Decimal(32) && IdxCode(Idx64) == "ix" + Decimal(64)
    ensures VecCode(Scalar) == "v" + Decimal(1) && VecCode(V2) == "v" + Decimal(2)
    ensures VecCode(V4) == "v" + Decimal(4) && VecCode(V8) == "v" + Decimal(8)
    ensures DivCode(Div16) == "d" + Decimal(16) && DivCode(Div8) == "d" + Decimal(8)
    ensures DivCode(Div4) == "d" + Decimal(4) && DivCode(Div2) == "d" + Decimal(2)
  {
    Digits();
  }

  /** The rest are fixed words. */
  lemma WordCodes()
    ensures ClassCode(Ctr) == "ctr" && ClassCode(Ndx) == "ndx" && ClassCode(Rdc) == "rdc" && ClassCode(Oth) == "oth"
    ensures WorkCode(OneWarp) == "warp" && WorkCode(OneBlock) == "block" && WorkCode(GridStride) == "grid"
    ensures ContigCode(Contig) == "co" && ContigCode(InnerContig) == "ic"
    ensures ContigCode(Strided) == "st" && ContigCode(Broadcast) == "br"
    ensures DivCode(AnyDiv) == "da" && MpCode(St) == "st" && MpCode(Rm) == "rm"
    ensures DequantCode(Linear) == "dl" && DequantCode(Codebook) == "dc"
    ensures FlipCode(false) == "f" && FlipCode(true) == "r"
    ensures [SizeCode(Tiny), SizeCode(Small), SizeCode(Mid), SizeCode(Large)] == "tsml"
  {
  }

  // ---- whole tokens

  lemma JoinTwo(a: string, b: string, sep: char)
    ensures Join([a, b], sep) == a + [sep] + b
  {
    assert [a, b][1..] == [b];
  }

  function PlainOperand(bcast: nat): OperandKey { OperandKey(Contig, bcast, Scalar, AnyDiv, false, None) }

  /** Operands as the wire spells them: the broadcast mask in two digits, an operand read backwards, and
      the form of a dequantized one as a sixth field. */
  lemma KnownOperands()
    ensures OperandFields(PlainOperand(0)) == ["co", "00", "v1", "da", "f"]
    ensures OperandFields(PlainOperand(10)) == ["co", "0a", "v1", "da", "f"]
    ensures OperandFields(OperandKey(Broadcast, 1, Scalar, Div16, false, None)) == ["br", "01", "v1", "d16", "f"]
    ensures OperandFields(OperandKey(Contig, 0, Scalar, Div16, true, None)) == ["co", "00", "v1", "d16", "r"]
    ensures OperandFields(OperandKey(Contig, 0, Scalar, Div16, false, Some(Linear)))
         == ["co", "00", "v1", "d16", "f", "dl"]
  {
    Masks();
  }

  lemma Masks()
    ensures Hex2(0) == "00" && Hex2(10) == "0a" && Hex2(1) == "01"
  {
    assert Digit(0) == '0' && Digit(1) == '1' && Digit(10) == 'a';
    assert Hex2(0) == [Digit(0), Digit(0)] && Hex2(10) == [Digit(0), Digit(10)] && Hex2(1) == [Digit(0), Digit(1)];
  }

  function AxesOneAndThree(): StructureKey {
    StructureKey(6, Rdc, F32, "cuda:sm89", Idx32, OneBlock, 4, [PlainOperand(0), PlainOperand(10)], 10, None, None)
  }

  /** A reduction of four axes over the second and the last. */
  lemma KnownReduction(operands: string)
    requires operands == Join(["co", "00", "v1", "da", "f"], '/') + ";" + Join(["co", "0a", "v1", "da", "f"], '/')
    ensures ToToken(AxesOneAndThree())
         == Join(["sk6", "rdc", "f32", "cuda:sm89", "ix32", "block", "r4", operands, "x0a"], '|')
  {
    var k := AxesOneAndThree();
    ReductionOperands();
    ReductionAxes();
    ReductionNumbers();
    var fields := ["sk6", "rdc", "f32", "cuda:sm89", "ix32", "block", "r4", operands, "x0a"];
    assert NineFields(k) == fields;
    assert NineFields(k) + TenthField(k) == fields;
  }

  lemma ReductionOperands()
    ensures OperandsField([PlainOperand(0), PlainOperand(10)])
         == Join(["co", "00", "v1", "da", "f"], '/') + ";" + Join(["co", "0a", "v1", "da", "f"], '/')
  {
    var os := [PlainOperand(0), PlainOperand(10)];
    var (x, y) := (Join(["co", "00", "v1", "da", "f"], '/'), Join(["co", "0a", "v1", "da", "f"], '/'));
    KnownOperands();
    assert OperandTexts(os) == [x, y];
    JoinTwo(x, y, ';');
  }

  lemma ReductionNumbers()
    ensures "sk" + Decimal(6) == "sk6" && "r" + Decimal(4) == "r4"
  {
    Digits();
  }

  lemma ReductionAxes()
    ensures ReduceField(10, 4) == "x0a"
  {
    Masks();
    assert Pow2(3) == 8 && Pow2(4) == 16 by { assert Pow2(0) == 1 && Pow2(1) == 2 && Pow2(2) == 4; }
  }

  /** A batched contraction that reads both operands in another order than they are stored. */
  lemma KnownContraction()
    ensures var c := ContractionKey(Tiny, Large, Large, Div16, Some(Tiny), [0, 2, 1], [1, 0, 2], F32, F32, F32, Rm,
            None);
            ContractionFields(c) == ["tll", "d16", "bt", "ol021", "or102", "f32", "f32", "f32", "rm"] &&
            ContractionField(c) == "c" + Join(ContractionFields(c), '/')
  {
    var c := ContractionKey(Tiny, Large, Large, Div16, Some(Tiny), [0, 2, 1], [1, 0, 2], F32, F32, F32, Rm, None);
    ThreeDigits(0, 2, 1);
    ThreeDigits(1, 0, 2);
    assert !IsIdentity([0, 2, 1]) by { assert [0, 2, 1][1] != 1; }
    assert !IsIdentity([1, 0, 2]) by { assert [1, 0, 2][0] != 0; }
    assert OrderDigits([0, 2, 1]) == "021" && OrderDigits([1, 0, 2]) == "102";
    assert "ol" + "021" == "ol021" && "or" + "102" == "or102" && ['b', 't'] == "bt";
    assert Geometry(c) == ["bt", "ol021", "or102"];
    assert Sizes(c) == "tll";
  }

  lemma ThreeDigits(a: nat, b: nat, c: nat)
    requires a < 10 && b < 10 && c < 10
    ensures OrderDigits([a, b, c]) == [Digit(a), Digit(b), Digit(c)]
  {
    assert [a, b, c][1..] == [b, c] && [b, c][1..] == [c] && [c][1..] == [];
    assert OrderDigits([c]) == Decimal(c) + OrderDigits([]) == [Digit(c)];
    assert OrderDigits([b, c]) == Decimal(b) + OrderDigits([c]) == [Digit(b), Digit(c)];
  }

  /** At most eight operands are read, each of them in its place. */
  lemma OperandCeiling(field: string)
    requires field != ""
    ensures ReadOperands(field).Some? <==>
              |Split(field, {';'})| <= 8 && forall o :: o in Split(field, {';'}) ==> ReadOperand(o).Some?
  {
    var fields := Split(field, {';'});
    if |fields| <= 8 && forall o :: o in fields ==> ReadOperand(o).Some? {
      assert forall i :: 0 <= i < |fields| ==> ReadOperand(fields[i]).Some?;
    }
    if ReadOperands(field).Some? {
      forall o | o in fields ensures ReadOperand(o).Some? {
        var i :| 0 <= i < |fields| && fields[i] == o;
      }
    }
  }
}
