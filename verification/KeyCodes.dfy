/** The closed vocabularies of a structure key and their token spellings. */
module KeyCodes {
  import opened Wrappers
  import opened Text

  datatype CellClass = Ctr | Ndx | Rdc | Ew1 | Ew2 | Ew3 | Oth
  datatype IdxWidth = Idx32 | Idx64
  datatype WorkClass = OneWarp | OneBlock | GridStride
  datatype Contiguity = Contig | InnerContig | Strided | Broadcast
  datatype VecWidth = Scalar | V2 | V4 | V8
  datatype DivBucket = Div16 | Div8 | Div4 | Div2 | AnyDiv
  datatype SizeClass = Tiny | Small | Mid | Large
  datatype Precision = St | Rm
  datatype DequantForm = Linear | Codebook

  datatype DType =
    | F16 | Bf16 | F32 | F32Strict | F64 | I8 | U8 | I32 | I64 | U32 | Bool
    | Fp8E4M3FN | Fp8E5M2 | Fp8E4M3FNUZ | F8E8M0 | F8E6M2 | Fp8E5M2FNUZ
    | I16 | U16 | U64 | F4E2M1 | F6E2M3 | F6E3M2 | I4 | U4 | B1 | Complex64 | Complex128

  predicate IsReserved(d: DType) { d.Fp8E4M3FNUZ? || d.Fp8E5M2FNUZ? || d.F8E6M2? }

  predicate IsMxElement(d: DType) { d.F4E2M1? || d.F6E2M3? || d.F6E3M2? }

  /** `canonical_dtype`: the strict spelling is retired. */
  function Fold(d: DType): DType { if d.F32Strict? then F32 else d }

  function DTypeCode(d: DType): string {
    match d
    case F16 => "f16"
    case Bf16 => "bf16"
    case F32 => "f32"
    case F32Strict => "f32"
    case F64 => "f64"
    case I8 => "i8"
    case U8 => "u8"
    case I32 => "i32"
    case I64 => "i64"
    case U32 => "u32"
    case Bool => "bool"
    case Fp8E4M3FN => "f8e4m3fn"
    case Fp8E5M2 => "f8e5m2"
    case Fp8E4M3FNUZ => "f8e4m3fnuz"
    case F8E8M0 => "f8e8m0"
    case F8E6M2 => "f8e6m2"
    case Fp8E5M2FNUZ => "f8e5m2fnuz"
    case I16 => "i16"
    case U16 => "u16"
    case U64 => "u64"
    case F4E2M1 => "f4e2m1"
    case F6E2M3 => "f6e2m3"
    case F6E3M2 => "f6e3m2"
    case I4 => "i4"
    case U4 => "u4"
    case B1 => "b1"
    case Complex64 => "c64"
    case Complex128 => "c128"
  }

  function DTypeFrom(s: string): Option<DType> {
    match s
    case "f16" => Some(F16)
    case "bf16" => Some(Bf16)
    case "f32" => Some(F32)
    case "f64" => Some(F64)
    case "i8" => Some(I8)
    case "i16" => Some(I16)
    case "u8" => Some(U8)
    case "u16" => Some(U16)
    case "u64" => Some(U64)
    case "f8e4m3fnuz" => Some(Fp8E4M3FNUZ)
    case "f8e8m0" => Some(F8E8M0)
    case "f8e6m2" => Some(F8E6M2)
    case "f8e5m2fnuz" => Some(Fp8E5M2FNUZ)
    case "f4e2m1" => Some(F4E2M1)
    case "f6e2m3" => Some(F6E2M3)
    case "f6e3m2" => Some(F6E3M2)
    case "i32" => Some(I32)
    case "i64" => Some(I64)
    case "u32" => Some(U32)
    case "bool" => Some(Bool)
    case "f8e4m3fn" => Some(Fp8E4M3FN)
    case "f8e5m2" => Some(Fp8E5M2)
    case "i4" => Some(I4)
    case "u4" => Some(U4)
    case "b1" => Some(B1)
    case "c64" => Some(Complex64)
    case "c128" => Some(Complex128)
    case _ => None
  }

  function ClassCode(v: CellClass): string {
    match v
    case Ctr => "ctr"
    case Ndx => "ndx"
    case Rdc => "rdc"
    case Ew1 => "ew1"
    case Ew2 => "ew2"
    case Ew3 => "ew3"
    case Oth => "oth"
  }

  function ClassFrom(s: string): Option<CellClass> {
    match s
    case "ctr" => Some(Ctr)
    case "ndx" => Some(Ndx)
    case "rdc" => Some(Rdc)
    case "ew1" => Some(Ew1)
    case "ew2" => Some(Ew2)
    case "ew3" => Some(Ew3)
    case "oth" => Some(Oth)
    case _ => None
  }

  function IdxCode(v: IdxWidth): string {
    match v
    case Idx32 => "ix32"
    case Idx64 => "ix64"
  }

  function IdxFrom(s: string): Option<IdxWidth> {
    match s
    case "ix32" => Some(Idx32)
    case "ix64" => Some(Idx64)
    case _ => None
  }

  function WorkCode(v: WorkClass): string {
    match v
    case OneWarp => "warp"
    case OneBlock => "block"
    case GridStride => "grid"
  }

  function WorkFrom(s: string): Option<WorkClass> {
    match s
    case "warp" => Some(OneWarp)
    case "block" => Some(OneBlock)
    case "grid" => Some(GridStride)
    case _ => None
  }

  function ContigCode(v: Contiguity): string {
    match v
    case Contig => "co"
    case InnerContig => "ic"
    case Strided => "st"
    case Broadcast => "br"
  }

  function ContigFrom(s: string): Option<Contiguity> {
    match s
    case "co" => Some(Contig)
    case "ic" => Some(InnerContig)
    case "st" => Some(Strided)
    case "br" => Some(Broadcast)
    case _ => None
  }

  function VecCode(v: VecWidth): string {
    match v
    case Scalar => "v1"
    case V2 => "v2"
    case V4 => "v4"
    case V8 => "v8"
  }

  function VecFrom(s: string): Option<VecWidth> {
    match s
    case "v1" => Some(Scalar)
    case "v2" => Some(V2)
    case "v4" => Some(V4)
    case "v8" => Some(V8)
    case _ => None
  }

  function DivCode(v: DivBucket): string {
    match v
    case Div16 => "d16"
    case Div8 => "d8"
    case Div4 => "d4"
    case Div2 => "d2"
    case AnyDiv => "da"
  }

  function DivFrom(s: string): Option<DivBucket> {
    match s
    case "d16" => Some(Div16)
    case "d8" => Some(Div8)
    case "d4" => Some(Div4)
    case "d2" => Some(Div2)
    case "da" => Some(AnyDiv)
    case _ => None
  }

  function MpCode(v: Precision): string {
    match v
    case St => "st"
    case Rm => "rm"
  }

  function MpFrom(s: string): Option<Precision> {
    match s
    case "st" => Some(St)
    case "rm" => Some(Rm)
    case _ => None
  }

  function DequantCode(v: DequantForm): string {
    match v
    case Linear => "dl"
    case Codebook => "dc"
  }

  function DequantFrom(s: string): Option<DequantForm> {
    match s
    case "dl" => Some(Linear)
    case "dc" => Some(Codebook)
    case _ => None
  }

  function SizeCode(v: SizeClass): char {
    match v
    case Tiny => 't'
    case Small => 's'
    case Mid => 'm'
    case Large => 'l'
  }

  function SizeFrom(c: char): Option<SizeClass> {
    match c
    case 't' => Some(Tiny)
    case 's' => Some(Small)
    case 'm' => Some(Mid)
    case 'l' => Some(Large)
    case _ => None
  }

  function FlipCode(flipped: bool): string { if flipped then "r" else "f" }

  function FlipFrom(s: string): Option<bool> {
    match s
    case "f" => Some(false)
    case "r" => Some(true)
    case _ => None
  }

  /** The three bytes a token is cut at. */
  const CUTS: set<char> := {'|', '/', ';'}

  lemma ClassRoundTrip(v: CellClass, s: string)
    ensures ClassFrom(ClassCode(v)) == Some(v) && Clean(ClassCode(v), CUTS) && ClassCode(v) != ""
    ensures ClassFrom(s) == Some(v) ==> ClassCode(v) == s
  {
  }

  lemma IdxRoundTrip(v: IdxWidth, s: string)
    ensures IdxFrom(IdxCode(v)) == Some(v) && Clean(IdxCode(v), CUTS) && IdxCode(v) != ""
    ensures IdxFrom(s) == Some(v) ==> IdxCode(v) == s
  {
  }

  lemma WorkRoundTrip(v: WorkClass, s: string)
    ensures WorkFrom(WorkCode(v)) == Some(v) && Clean(WorkCode(v), CUTS) && WorkCode(v) != ""
    ensures WorkFrom(s) == Some(v) ==> WorkCode(v) == s
  {
  }

  lemma ContigRoundTrip(v: Contiguity, s: string)
    ensures ContigFrom(ContigCode(v)) == Some(v) && Clean(ContigCode(v), CUTS) && ContigCode(v) != ""
    ensures ContigFrom(s) == Some(v) ==> ContigCode(v) == s
  {
  }

  lemma VecRoundTrip(v: VecWidth, s: string)
    ensures VecFrom(VecCode(v)) == Some(v) && Clean(VecCode(v), CUTS) && VecCode(v) != ""
    ensures VecFrom(s) == Some(v) ==> VecCode(v) == s
  {
  }

  lemma DivRoundTrip(v: DivBucket, s: string)
    ensures DivFrom(DivCode(v)) == Some(v) && Clean(DivCode(v), CUTS) && DivCode(v) != ""
    ensures DivFrom(s) == Some(v) ==> DivCode(v) == s
  {
  }

  lemma MpRoundTrip(v: Precision, s: string)
    ensures MpFrom(MpCode(v)) == Some(v) && Clean(MpCode(v), CUTS) && MpCode(v) != ""
    ensures MpFrom(s) == Some(v) ==> MpCode(v) == s
  {
  }

  lemma DequantRoundTrip(v: DequantForm, s: string)
    ensures DequantFrom(DequantCode(v)) == Some(v) && Clean(DequantCode(v), CUTS) && DequantCode(v) != ""
    ensures DequantFrom(s) == Some(v) ==> DequantCode(v) == s
  {
  }

  lemma DTypeRoundTrip(d: DType)
    ensures DTypeFrom(DTypeCode(d)) == Some(Fold(d)) && Clean(DTypeCode(d), CUTS) && DTypeCode(d) != ""
  {
  }

  lemma DTypeSpelling(s: string)
    requires DTypeFrom(s).Some?
    ensures DTypeCode(DTypeFrom(s).value) == s && Fold(DTypeFrom(s).value) == DTypeFrom(s).value
  {
  }

  /** What tells the spellings apart: the only ones with a leading `c` are complex, none has a
      leading `q`, and every reserved one holds an `m`. */
  lemma DTypeLead(d: DType)
    ensures DTypeCode(d)[0] == 'c' <==> d.Complex64? || d.Complex128?
    ensures DTypeCode(d)[0] in {'f', 'b', 'i', 'u', 'c'}
    ensures IsReserved(d) ==> DTypeCode(d)[0] == 'f' && 'm' in DTypeCode(d)
  {
    match d
    case F8E6M2 => assert DTypeCode(d)[4] == 'm';
    case Fp8E4M3FNUZ => assert DTypeCode(d)[4] == 'm';
    case Fp8E5M2FNUZ => assert DTypeCode(d)[4] == 'm';
    case _ =>
  }

  lemma SizeRoundTrip(v: SizeClass, c: char)
    ensures SizeFrom(SizeCode(v)) == Some(v) && SizeCode(v) !in CUTS
    ensures SizeFrom(c) == Some(v) ==> SizeCode(v) == c
  {
  }

  lemma FlipRoundTrip(v: bool, s: string)
    ensures FlipFrom(FlipCode(v)) == Some(v) && Clean(FlipCode(v), CUTS)
    ensures FlipFrom(s) == Some(v) ==> FlipCode(v) == s
  {
  }
}
