/**
  The closed code vocabularies of the runtime's internal header: file open
  modes, rounding modes, the overflow policies of a store, the lock-mode bit
  flags, the exception codes and the field-type codes. Each is a datatype
  with its encoding as the header's integer and a decoding that inverts it;
  the header gives the codes names only, and no behaviour behind them.
*/
module CobCodes {
  import opened Wrappers

  // ---------------------------------------------------------------------
  // enum cob_open_mode
  // ---------------------------------------------------------------------

  datatype OpenMode = Closed | Input | Output | InputOutput | Extend

  function OpenModeCode(m: OpenMode): (n: int)
    ensures 0 <= n <= 4
  {
    match m
    case Closed => 0
    case Input => 1
    case Output => 2
    case InputOutput => 3
    case Extend => 4
  }

  /** The enumerators count up from `COB_OPEN_CLOSED = 0`; every other integer names no mode. */
  function OpenModeOf(n: int): (r: Option<OpenMode>)
    ensures r.Some? <==> 0 <= n <= 4
    ensures forall m :: OpenModeCode(m) == n <==> r == Some(m)
  {
    if n == 0 then Some(Closed)
    else if n == 1 then Some(Input)
    else if n == 2 then Some(Output)
    else if n == 3 then Some(InputOutput)
    else if n == 4 then Some(Extend)
    else None
  }

  // ---------------------------------------------------------------------
  // COB_STORE_* rounding modes, and the two overflow policies
  // ---------------------------------------------------------------------

  datatype RoundingMode =
    | Round | NearAwayFromZero | NearEven | Prohibited | Truncation
    | AwayFromZero | NearTowardZero | TowardGreater | TowardLesser

  /** The modes in declaration order. */
  const RoundingModes: seq<RoundingMode> :=
    [Round, NearAwayFromZero, NearEven, Prohibited, Truncation,
     AwayFromZero, NearTowardZero, TowardGreater, TowardLesser]

  function RoundingCode(m: RoundingMode): (n: int)
    ensures 0 <= n <= 8
    ensures n < |RoundingModes| && RoundingModes[n] == m
  {
    match m
    case Round => 0
    case NearAwayFromZero => 1
    case NearEven => 2
    case Prohibited => 3
    case Truncation => 4
    case AwayFromZero => 5
    case NearTowardZero => 6
    case TowardGreater => 7
    case TowardLesser => 8
  }

  function RoundingModeOf(n: int): (r: Option<RoundingMode>)
    ensures r.Some? <==> 0 <= n <= 8
    ensures forall m :: RoundingCode(m) == n <==> r == Some(m)
  {
    if 0 <= n < |RoundingModes| then Some(RoundingModes[n]) else None
  }

  /** The nine codes are 0..8 in declaration order, each used once. */
  lemma RoundingCodesInOrder()
    ensures forall k :: 0 <= k < |RoundingModes| ==> RoundingCode(RoundingModes[k]) == k
    ensures forall j, k :: 0 <= j < k < |RoundingModes| ==> RoundingModes[j] != RoundingModes[k]
  {
    forall k | 0 <= k < |RoundingModes|
      ensures RoundingCode(RoundingModes[k]) == k
    {
      var m := RoundingModes[k];
      assert RoundingModes[RoundingCode(m)] == m;
    }
  }

  /** `COB_STORE_KEEP_ON_OVERFLOW` and `COB_STORE_TRUNC_ON_OVERFLOW`. */
  datatype OverflowPolicy = KeepOnOverflow | TruncOnOverflow

  function OverflowCode(p: OverflowPolicy): (n: int)
    ensures n == 1 || n == 2
  {
    match p
    case KeepOnOverflow => 1
    case TruncOnOverflow => 2
  }

  function OverflowPolicyOf(n: int): (r: Option<OverflowPolicy>)
    ensures r.Some? <==> n == 1 || n == 2
    ensures forall p :: OverflowCode(p) == n <==> r == Some(p)
  {
    if n == 1 then Some(KeepOnOverflow) else if n == 2 then Some(TruncOnOverflow) else None
  }

  /** The two policies reuse the integers of two rounding modes, so a code
      alone does not tell which vocabulary it is from. This records a fact
      about the header's constants, read off their values; it proves nothing
      about code that uses them. */
  lemma OverflowCodesOverlapRounding()
    ensures OverflowCode(KeepOnOverflow) == RoundingCode(NearAwayFromZero)
    ensures OverflowCode(TruncOnOverflow) == RoundingCode(NearEven)
  {
  }

  // ---------------------------------------------------------------------
  // COB_LOCK_* bit flags
  // ---------------------------------------------------------------------

  datatype LockFlag = Manual | Automatic | Exclusive | Multiple | Rollback | OpenExclusive

  const AllLockFlags: set<LockFlag> :=
    {Manual, Automatic, Exclusive, Multiple, Rollback, OpenExclusive}

  /** The bit each flag's `1 << k` sets. */
  function LockBit(f: LockFlag): (b: bv32)
    ensures b != 0 && b & (b - 1) == 0
    ensures b & 0x3F == b
  {
    match f
    case Manual => 1 << 0
    case Automatic => 1 << 1
    case Exclusive => 1 << 2
    case Multiple => 1 << 3
    case Rollback => 1 << 4
    case OpenExclusive => 1 << 5
  }

  function BitIf(b: bool, bit: bv32): bv32 {
    if b then bit else 0
  }

  /** The mask a set of flags is or-ed into. */
  function LockMask(s: set<LockFlag>): (m: bv32)
    ensures m & 0x3F == m
  {
    BitIf(Manual in s, LockBit(Manual)) | BitIf(Automatic in s, LockBit(Automatic))
    | BitIf(Exclusive in s, LockBit(Exclusive)) | BitIf(Multiple in s, LockBit(Multiple))
    | BitIf(Rollback in s, LockBit(Rollback)) | BitIf(OpenExclusive in s, LockBit(OpenExclusive))
  }

  /** The flags a mask tests positive for. */
  function LockFlagsOf(m: bv32): (s: set<LockFlag>)
    ensures forall f :: f in s <==> m & LockBit(f) != 0
  {
    set f | f in AllLockFlags && m & LockBit(f) != 0
  }

  /** Distinct flags have disjoint bits. */
  lemma LockBitsDisjoint(f: LockFlag, g: LockFlag)
    ensures f != g ==> LockBit(f) & LockBit(g) == 0
  {
  }

  /** Testing a mask for a flag's bit tells whether the flag was in the set. */
  lemma LockMaskTest(s: set<LockFlag>, f: LockFlag)
    ensures LockMask(s) & LockBit(f) != 0 <==> f in s
  {
    var m := LockMask(s);
    match f
    case Manual => assert m & 1 != 0 <==> Manual in s;
    case Automatic => assert m & 2 != 0 <==> Automatic in s;
    case Exclusive => assert m & 4 != 0 <==> Exclusive in s;
    case Multiple => assert m & 8 != 0 <==> Multiple in s;
    case Rollback => assert m & 16 != 0 <==> Rollback in s;
    case OpenExclusive => assert m & 32 != 0 <==> OpenExclusive in s;
  }

  /** Any set of flags is recovered from its mask. */
  lemma LockMaskRoundTrip(s: set<LockFlag>)
    ensures LockFlagsOf(LockMask(s)) == s
  {
    forall f
      ensures f in LockFlagsOf(LockMask(s)) <==> f in s
    {
      LockMaskTest(s, f);
    }
  }

  /** Any mask within the six bits is the mask of the flags it tests positive for. */
  lemma LockFlagsRoundTrip(m: bv32)
    requires m & 0x3F == m
    ensures LockMask(LockFlagsOf(m)) == m
  {
    var s := LockFlagsOf(m);
    assert Manual in s <==> m & 1 != 0;
    assert Automatic in s <==> m & 2 != 0;
    assert Exclusive in s <==> m & 4 != 0;
    assert Multiple in s <==> m & 8 != 0;
    assert Rollback in s <==> m & 16 != 0;
    assert OpenExclusive in s <==> m & 32 != 0;
  }

  /** So two different sets never share a mask. */
  lemma LockMaskInjective(s: set<LockFlag>, t: set<LockFlag>)
    requires LockMask(s) == LockMask(t)
    ensures s == t
  {
    LockMaskRoundTrip(s);
    LockMaskRoundTrip(t);
  }

  // ---------------------------------------------------------------------
  // COB_EC_* exception codes
  // ---------------------------------------------------------------------

  datatype ExceptionCode =
    | IO | DataIncompatible | BoundRefMod | DataPtrNull | ProgramArgOmitted
    | BoundSubscript | BoundOdo | BoundPtr | Range | ProgramResources
    | Size | SizeOverflow | SizeUnderflow | SizeZeroDivide | RangeIndex | All

  /** `COB_EC_MAX`. */
  const EcMax: int := 256

  function ExceptionValue(e: ExceptionCode): (n: int)
    ensures 0x0100 <= n <= 0xFFFF
  {
    match e
    case IO => 0x0100
    case DataIncompatible => 0x0200
    case BoundRefMod => 0x0300
    case DataPtrNull => 0x0301
    case ProgramArgOmitted => 0x0302
    case BoundSubscript => 0x0303
    case BoundOdo => 0x0304
    case BoundPtr => 0x0305
    case Range => 0x0400
    case ProgramResources => 0x0500
    case Size => 0x0600
    case SizeOverflow => 0x0601
    case SizeUnderflow => 0x0602
    case SizeZeroDivide => 0x0603
    case RangeIndex => 0x0700
    case All => 0xFFFF
  }

  function ExceptionOf(n: int): (r: Option<ExceptionCode>)
    ensures forall e :: ExceptionValue(e) == n <==> r == Some(e)
  {
    match n
    case 0x0100 => Some(IO)
    case 0x0200 => Some(DataIncompatible)
    case 0x0300 => Some(BoundRefMod)
    case 0x0301 => Some(DataPtrNull)
    case 0x0302 => Some(ProgramArgOmitted)
    case 0x0303 => Some(BoundSubscript)
    case 0x0304 => Some(BoundOdo)
    case 0x0305 => Some(BoundPtr)
    case 0x0400 => Some(Range)
    case 0x0500 => Some(ProgramResources)
    case 0x0600 => Some(Size)
    case 0x0601 => Some(SizeOverflow)
    case 0x0602 => Some(SizeUnderflow)
    case 0x0603 => Some(SizeZeroDivide)
    case 0x0700 => Some(RangeIndex)
    case 0xFFFF => Some(All)
    case _ => None
  }

  /** The category of a code is its high byte; a code whose low byte is zero
      names the whole category. */
  function Category(n: int): int {
    n / 0x100
  }

  predicate IsCategoryCode(e: ExceptionCode) {
    ExceptionValue(e) % 0x100 == 0
  }

  /** The three size conditions sit in the category of `COB_EC_SIZE`. */
  lemma SizeCategory(e: ExceptionCode)
    requires e in {SizeOverflow, SizeUnderflow, SizeZeroDivide}
    ensures Category(ExceptionValue(e)) == Category(ExceptionValue(Size)) == 0x06
    ensures !IsCategoryCode(e) && IsCategoryCode(Size)
  {
  }

  /** The subscript, ODO and pointer bound conditions sit in the category of
      `COB_EC_BOUND_REF_MOD`, and so do the null-pointer and omitted-argument
      codes, whose names belong to other groups. */
  lemma BoundCategory(e: ExceptionCode)
    requires e in {BoundSubscript, BoundOdo, BoundPtr, DataPtrNull, ProgramArgOmitted}
    ensures Category(ExceptionValue(e)) == Category(ExceptionValue(BoundRefMod)) == 0x03
    ensures !IsCategoryCode(e) && IsCategoryCode(BoundRefMod)
  {
  }

  /** Every category code below `COB_EC_ALL` has its own high byte. */
  lemma CategoryCodesDistinct(e: ExceptionCode, f: ExceptionCode)
    requires IsCategoryCode(e) && IsCategoryCode(f) && e != f
    ensures Category(ExceptionValue(e)) != Category(ExceptionValue(f))
  {
  }

  /** None of these values is below `COB_EC_MAX`: they are not indices into a
      table of that size. This records a fact about the header's constants,
      read off their values. */
  lemma ExceptionValuesAboveMax(e: ExceptionCode)
    ensures EcMax <= ExceptionValue(e)
  {
  }

  // ---------------------------------------------------------------------
  // COB_TYPE_* field types
  // ---------------------------------------------------------------------

  datatype FieldType =
    | Group | Boolean
    | NumericDisplay | NumericBinary | NumericPacked | NumericFloat | NumericDouble
    | NumericLDouble | NumericFpBin32 | NumericFpBin64 | NumericFpBin128
    | NumericFpDec64 | NumericFpDec128 | NumericEdited
    | Alphanumeric | AlphanumericEdited | National | NationalEdited

  function FieldTypeCode(t: FieldType): (n: int)
    ensures 0 <= n < 0x100
  {
    match t
    case Group => 0x00
    case Boolean => 0x01
    case NumericDisplay => 0x10
    case NumericBinary => 0x11
    case NumericPacked => 0x12
    case NumericFloat => 0x13
    case NumericDouble => 0x14
    case NumericLDouble => 0x15
    case NumericFpBin32 => 0x16
    case NumericFpBin64 => 0x17
    case NumericFpBin128 => 0x18
    case NumericFpDec64 => 0x19
    case NumericFpDec128 => 0x1A
    case NumericEdited => 0x24
    case Alphanumeric => 0x21
    case AlphanumericEdited => 0x22
    case National => 0x40
    case NationalEdited => 0x41
  }

  function FieldTypeOf(n: int): (r: Option<FieldType>)
    ensures forall t :: FieldTypeCode(t) == n <==> r == Some(t)
  {
    match n
    case 0x00 => Some(Group)
    case 0x01 => Some(Boolean)
    case 0x10 => Some(NumericDisplay)
    case 0x11 => Some(NumericBinary)
    case 0x12 => Some(NumericPacked)
    case 0x13 => Some(NumericFloat)
    case 0x14 => Some(NumericDouble)
    case 0x15 => Some(NumericLDouble)
    case 0x16 => Some(NumericFpBin32)
    case 0x17 => Some(NumericFpBin64)
    case 0x18 => Some(NumericFpBin128)
    case 0x19 => Some(NumericFpDec64)
    case 0x1A => Some(NumericFpDec128)
    case 0x24 => Some(NumericEdited)
    case 0x21 => Some(Alphanumeric)
    case 0x22 => Some(AlphanumericEdited)
    case 0x40 => Some(National)
    case 0x41 => Some(NationalEdited)
    case _ => None
  }

  /** The values of the second definitions of `COB_TYPE_NUMERIC_FP_DEC128`
      and `COB_TYPE_NUMERIC_EDITED`. */
  const FpDec128Redefined: int := 0x1A
  const NumericEditedRedefined: int := 0x24

  /** The repeated definitions agree with the first ones, so the
      preprocessor accepts them and the encoding stays a function. Both sides
      are transcribed from the header, so this records a fact about its text
      rather than proving one. */
  lemma RedefinitionsAgree()
    ensures FieldTypeCode(NumericFpDec128) == FpDec128Redefined
    ensures FieldTypeCode(NumericEdited) == NumericEditedRedefined
  {
  }
}
