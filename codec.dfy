/**
 * The `Codec` base class (src/Module/Codec/Codec.hpp): the code dimensions it
 * validates at construction, the noise parameter and collaborator fields its
 * setters update, and the three `extract_sys_*` entry points that check buffer
 * sizes and cut a multi-frame buffer into per-frame slices for a per-frame hook.
 */
module CodecBase {
  import opened Wrappers
  import Frames

  /** The requirement a call found violated. */
  datatype Reason =
    | KNotPositive | NNotPositive | NcwNotPositive | KAboveN | NAboveNcw
    | SigmaNotPositive
    | InterleaverCoreNull | EncoderNull | PuncturerNull
    | YNSize | YKSize | VKSize | SysSize | ParSize

  /** The exceptions the class throws. */
  datatype Failure =
    | InvalidArgument(reason: Reason)
    | RuntimeError(reason: Reason)
    | LengthError(reason: Reason)
    | UnimplementedError

  /** Collaborators, known here only by their identity. */
  datatype InterleaverCore = InterleaverCore(id: nat)
  datatype Encoder = Encoder(id: nat)
  datatype Puncturer = Puncturer(id: nat)

  /** What an interleaver module permutes: hard bits or soft values. */
  datatype Domain = Bits | Llrs

  /** The interleaver module the factory builds over a core, for one domain. */
  datatype Interleaver = Interleaver(core: InterleaverCore, domain: Domain)

  /** The interleaver built over `core` for `domain`, or none when there is no core. */
  function Built(core: Option<InterleaverCore>, domain: Domain): Option<Interleaver>
  {
    match core
    case None => None
    case Some(c) => Some(Interleaver(c, domain))
  }

  /**
   * A per-frame hook `_extract_*`: the base class's throws `unimplemented_error`;
   * a subclass's computes the frame's output from the frame's input slice and
   * the frame index.
   */
  datatype Hook<-I, O> = Unimplemented | Override(run: (seq<I>, nat) -> O)

  /** The two parts of a frame that `extract_sys_par` separates. */
  function SysPart<Q>(run: (seq<Q>, nat) -> (seq<Q>, seq<Q>)): (seq<Q>, nat) -> seq<Q>
  {
    (s: seq<Q>, f: nat) => run(s, f).0
  }

  function ParPart<Q>(run: (seq<Q>, nat) -> (seq<Q>, seq<Q>)): (seq<Q>, nat) -> seq<Q>
  {
    (s: seq<Q>, f: nat) => run(s, f).1
  }

  /** `tail_length / 2` in C++: the quotient is truncated toward zero. */
  function HalfTail(tailLength: int): (tb2: int)
    ensures tailLength >= 0 ==> 0 <= tailLength - 2 * tb2 <= 1
    ensures tailLength < 0 ==> -1 <= tailLength - 2 * tb2 <= 0
  {
    if tailLength >= 0 then tailLength / 2 else -((-tailLength) / 2)
  }

  /**
   * The constructor's checks, in order: the first one violated is reported as an
   * `invalid_argument`; none is violated exactly when `0 < K <= N <= N_cw`.
   */
  function DimensionCheck(K: int, Ncw: int, N: int): (r: Option<Failure>)
    ensures r == None <==> 0 < K <= N <= Ncw
    ensures r.Some? ==> r.value.InvalidArgument?
    ensures r == Some(InvalidArgument(KNotPositive)) ==> K <= 0
    ensures r == Some(InvalidArgument(NNotPositive)) ==> N <= 0
    ensures r == Some(InvalidArgument(NcwNotPositive)) ==> Ncw <= 0
    ensures r == Some(InvalidArgument(KAboveN)) ==> K > N
    ensures r == Some(InvalidArgument(NAboveNcw)) ==> N > Ncw
    ensures K <= 0 ==> r == Some(InvalidArgument(KNotPositive))
    ensures K > 0 && N <= 0 ==> r == Some(InvalidArgument(NNotPositive))
    ensures K > 0 && N > 0 && Ncw <= 0 ==> r == Some(InvalidArgument(NcwNotPositive))
    ensures K > 0 && N > 0 && Ncw > 0 && K > N ==> r == Some(InvalidArgument(KAboveN))
    ensures 0 < K <= N && Ncw > 0 && N > Ncw ==> r == Some(InvalidArgument(NAboveNcw))
  {
    if K <= 0 then Some(InvalidArgument(KNotPositive))
    else if N <= 0 then Some(InvalidArgument(NNotPositive))
    else if Ncw <= 0 then Some(InvalidArgument(NcwNotPositive))
    else if K > N then Some(InvalidArgument(KAboveN))
    else if N > Ncw then Some(InvalidArgument(NAboveNcw))
    else None
  }

  /**
   * The size checks of the vector `extract_sys_llr` and `extract_sys_bit`: the input
   * holds `N_cw` values per frame, the output `K` per frame; a mismatch is a
   * `length_error` naming the first buffer found wrong.
   */
  function FrameSizeCheck(K: int, Ncw: int, nFrames: nat, inSize: nat, outSize: nat, outReason: Reason): (r: Option<Failure>)
    ensures r == None <==> inSize == Ncw * nFrames && outSize == K * nFrames
    ensures inSize != Ncw * nFrames ==> r == Some(LengthError(YNSize))
    ensures r.Some? && inSize == Ncw * nFrames ==> r == Some(LengthError(outReason))
  {
    if Ncw * nFrames != inSize then Some(LengthError(YNSize))
    else if K * nFrames != outSize then Some(LengthError(outReason))
    else None
  }

  /**
   * The size checks of the vector `extract_sys_par`: per frame, `N_cw` input values,
   * `K + tb_2` systematic and `N_cw - K - tb_2` parity values, `tb_2` being half the tail.
   */
  function SysParSizeCheck(K: int, Ncw: int, tailLength: int, nFrames: nat,
                           inSize: nat, sysSize: nat, parSize: nat): (r: Option<Failure>)
    ensures r == None <==>
      && inSize == Ncw * nFrames
      && sysSize == (K + HalfTail(tailLength)) * nFrames
      && parSize == (Ncw - K - HalfTail(tailLength)) * nFrames
    ensures r.Some? ==> r.value.LengthError?
    ensures inSize != Ncw * nFrames ==> r == Some(LengthError(YNSize))
    ensures inSize == Ncw * nFrames && sysSize != (K + HalfTail(tailLength)) * nFrames ==>
      r == Some(LengthError(SysSize))
    ensures (&& inSize == Ncw * nFrames
             && sysSize == (K + HalfTail(tailLength)) * nFrames
             && parSize != (Ncw - K - HalfTail(tailLength)) * nFrames) ==> r == Some(LengthError(ParSize))
  {
    var tb2 := HalfTail(tailLength);
    if Ncw * nFrames != inSize then Some(LengthError(YNSize))
    else if (K + tb2) * nFrames != sysSize then Some(LengthError(SysSize))
    else if (Ncw - K - tb2) * nFrames != parSize then Some(LengthError(ParSize))
    else None
  }

  /** Once the sizes are right, the systematic and parity buffers together are as long as the input. */
  lemma SysParSizesCoverInput(K: int, Ncw: int, tailLength: int, nFrames: nat,
                              inSize: nat, sysSize: nat, parSize: nat)
    requires SysParSizeCheck(K, Ncw, tailLength, nFrames, inSize, sysSize, parSize) == None
    ensures sysSize + parSize == inSize
    ensures nFrames > 0 ==> 0 <= K + HalfTail(tailLength) && 0 <= Ncw - K - HalfTail(tailLength)
    ensures nFrames > 0 ==> (K + HalfTail(tailLength)) + (Ncw - K - HalfTail(tailLength)) == Ncw
  {
    var tb2 := HalfTail(tailLength);
    assert (K + tb2) * nFrames + (Ncw - K - tb2) * nFrames == Ncw * nFrames;
    if nFrames > 0 {
      NonNegativeFactor(K + tb2, nFrames);
      NonNegativeFactor(Ncw - K - tb2, nFrames);
    }
  }

  /**
   * Once `extract_sys_llr`'s or `extract_sys_bit`'s sizes are right, frame `f`'s input
   * slice `[f * N_cw, (f + 1) * N_cw)` and output slice `[f * K, (f + 1) * K)` lie
   * inside their buffers.
   */
  lemma CheckedFrameInBounds(K: int, Ncw: int, nFrames: nat, inSize: nat, outSize: nat, reason: Reason, f: nat)
    requires FrameSizeCheck(K, Ncw, nFrames, inSize, outSize, reason) == None
    requires f < nFrames
    ensures 0 <= f * Ncw <= (f + 1) * Ncw <= inSize
    ensures 0 <= f * K <= (f + 1) * K <= outSize
  {
    NonNegativeFactor(Ncw, nFrames);
    NonNegativeFactor(K, nFrames);
    Frames.StrideBelow(f, nFrames, Ncw);
    Frames.StrideBelow(f, nFrames, K);
  }

  /**
   * Once `extract_sys_llr`'s or `extract_sys_bit`'s sizes are right, a later frame `g`
   * starts, in both buffers, no earlier than frame `f` ends.
   */
  lemma CheckedFramesDisjoint(K: int, Ncw: int, nFrames: nat, inSize: nat, outSize: nat, reason: Reason, f: nat, g: nat)
    requires FrameSizeCheck(K, Ncw, nFrames, inSize, outSize, reason) == None
    requires f < g < nFrames
    ensures (f + 1) * Ncw <= g * Ncw
    ensures (f + 1) * K <= g * K
  {
    NonNegativeFactor(Ncw, nFrames);
    NonNegativeFactor(K, nFrames);
    Frames.SlicesDisjoint(f, g, Ncw);
    Frames.SlicesDisjoint(f, g, K);
  }

  /**
   * Once `extract_sys_par`'s sizes are right, frame `f`'s input, systematic and parity
   * slices lie inside their buffers.
   */
  lemma CheckedSysParInBounds(K: int, Ncw: int, tailLength: int, nFrames: nat,
                              inSize: nat, sysSize: nat, parSize: nat, f: nat)
    requires SysParSizeCheck(K, Ncw, tailLength, nFrames, inSize, sysSize, parSize) == None
    requires f < nFrames
    ensures 0 <= f * Ncw <= (f + 1) * Ncw <= inSize
    ensures var sysStride := K + HalfTail(tailLength);
      0 <= f * sysStride <= (f + 1) * sysStride <= sysSize
    ensures var parStride := Ncw - K - HalfTail(tailLength);
      0 <= f * parStride <= (f + 1) * parStride <= parSize
  {
    SysParSizesCoverInput(K, Ncw, tailLength, nFrames, inSize, sysSize, parSize);
    NonNegativeFactor(Ncw, nFrames);
    Frames.StrideBelow(f, nFrames, Ncw);
    Frames.StrideBelow(f, nFrames, K + HalfTail(tailLength));
    Frames.StrideBelow(f, nFrames, Ncw - K - HalfTail(tailLength));
  }

  /**
   * Once `extract_sys_par`'s sizes are right, a later frame `g` starts, in each of the
   * three buffers, no earlier than frame `f` ends.
   */
  lemma CheckedSysParDisjoint(K: int, Ncw: int, tailLength: int, nFrames: nat,
                              inSize: nat, sysSize: nat, parSize: nat, f: nat, g: nat)
    requires SysParSizeCheck(K, Ncw, tailLength, nFrames, inSize, sysSize, parSize) == None
    requires f < g < nFrames
    ensures (f + 1) * Ncw <= g * Ncw
    ensures var sysStride := K + HalfTail(tailLength); (f + 1) * sysStride <= g * sysStride
    ensures var parStride := Ncw - K - HalfTail(tailLength); (f + 1) * parStride <= g * parStride
  {
    SysParSizesCoverInput(K, Ncw, tailLength, nFrames, inSize, sysSize, parSize);
    NonNegativeFactor(Ncw, nFrames);
    Frames.SlicesDisjoint(f, g, Ncw);
    Frames.SlicesDisjoint(f, g, K + HalfTail(tailLength));
    Frames.SlicesDisjoint(f, g, Ncw - K - HalfTail(tailLength));
  }

  /**
   * The constructor does not check the tail length. With a stride of `extract_sys_par`
   * negative and at least one frame, no buffers pass that process's size checks.
   */
  lemma NegativeStrideRejectsEveryBuffer(K: int, Ncw: int, tailLength: int, nFrames: nat,
                                         inSize: nat, sysSize: nat, parSize: nat)
    requires nFrames > 0
    requires K + HalfTail(tailLength) < 0 || Ncw - K - HalfTail(tailLength) < 0
    ensures SysParSizeCheck(K, Ncw, tailLength, nFrames, inSize, sysSize, parSize).Some?
  {
    var tb2 := HalfTail(tailLength);
    if K + tb2 < 0 {
      NegativeProduct(K + tb2, nFrames);
    } else {
      NegativeProduct(Ncw - K - tb2, nFrames);
    }
  }

  /**
   * A codec the constructor accepts, `K = N = N_cw = 1` with a tail of 2, whose `par`
   * socket has a negative length and whose `extract_sys_par` rejects every buffer.
   */
  lemma TailLongerThanParity()
    ensures DimensionCheck(1, 1, 1) == None
    ensures 1 - 1 - HalfTail(2) < 0
    ensures forall inSize: nat, sysSize: nat, parSize: nat ::
      SysParSizeCheck(1, 1, 2, 1, inSize, sysSize, parSize).Some?
  {
    forall inSize: nat, sysSize: nat, parSize: nat
      ensures SysParSizeCheck(1, 1, 2, 1, inSize, sysSize, parSize).Some?
    {
      NegativeStrideRejectsEveryBuffer(1, 1, 2, 1, inSize, sysSize, parSize);
    }
  }

  lemma NegativeProduct(a: int, n: nat)
    requires a < 0 && n > 0
    ensures a * n < 0
  {
    NonPositiveProduct(a, n - 1);
    assert a * n == a + a * (n - 1);
  }

  lemma NonNegativeFactor(a: int, n: nat)
    requires n > 0 && a * n >= 0
    ensures a >= 0
  {
    if a < 0 {
      assert a * n == a + a * (n - 1);
      NonPositiveProduct(a, n - 1);
    }
  }

  lemma NonPositiveProduct(a: int, n: nat)
    requires a < 0
    ensures a * n <= 0
  {
  }

  /** The processes the constructor declares, and the sockets each declares with its length. */
  datatype Task = ExtractSysLlr | ExtractSysBit | ExtractSysPar
  datatype Socket = Socket(task: Task, name: string, length: int)

  class Codec<B, Q(!new)> {
    // the code dimensions and the frame count, fixed at construction
    const K: int
    const Ncw: int
    const N: int
    const tailLength: int
    const nFrames: nat

    // the noise parameter; -1 until set
    var sigma: real

    // collaborators; None stands for a null pointer
    var interleaverCore: Option<InterleaverCore>
    var interleaverBit: Option<Interleaver>
    var interleaverLlr: Option<Interleaver>
    var encoder: Option<Encoder>
    var puncturer: Option<Puncturer>

    /**
     * The object invariant: the dimensions passed the constructor's checks, sigma
     * is either unset (-1) or positive, and the two interleaver modules are the
     * ones built over the stored core.
     */
    ghost predicate Valid()
      reads this
    {
      && DimensionCheck(K, Ncw, N) == None
      && (sigma == -1.0 || sigma > 0.0)
      && interleaverBit == Built(interleaverCore, Bits)
      && interleaverLlr == Built(interleaverCore, Llrs)
    }

    /** The constructor, for dimensions that pass its checks. */
    constructor (K: int, Ncw: int, N: int, tailLength: int, nFrames: nat)
      requires DimensionCheck(K, Ncw, N) == None
      ensures Valid()
      ensures this.K == K && this.Ncw == Ncw && this.N == N
      ensures this.tailLength == tailLength && this.nFrames == nFrames
      ensures sigma == -1.0
      ensures interleaverCore == None && encoder == None && puncturer == None
    {
      this.K := K;
      this.Ncw := Ncw;
      this.N := N;
      this.tailLength := tailLength;
      this.nFrames := nFrames;
      sigma := -1.0;
      interleaverCore := None;
      interleaverBit := None;
      interleaverLlr := None;
      encoder := None;
      puncturer := None;
    }

    /**
     * Construction with its checks: either the first `invalid_argument` and no object,
     * or a fresh codec with the given dimensions, sigma unset and no collaborators.
     */
    static method Create(K: int, Ncw: int, N: int, tailLength: int, nFrames: nat)
      returns (r: Result<Codec<B, Q>, Failure>)
      ensures DimensionCheck(K, Ncw, N).Some? ==> r == Failure(DimensionCheck(K, Ncw, N).value)
      ensures DimensionCheck(K, Ncw, N).None? ==>
        && r.Success? && fresh(r.value) && r.value.Valid()
        && r.value.K == K && r.value.Ncw == Ncw && r.value.N == N
        && r.value.tailLength == tailLength && r.value.nFrames == nFrames
        && r.value.sigma == -1.0
        && r.value.interleaverCore == None && r.value.encoder == None && r.value.puncturer == None
    {
      var check := DimensionCheck(K, Ncw, N);
      if check.Some? {
        return Failure(check.value);
      }
      var c := new Codec(K, Ncw, N, tailLength, nFrames);
      return Success(c);
    }

    /** The sockets the constructor declares, with the lengths it gives them. */
    function DeclaredSockets(): (socks: seq<Socket>)
      ensures |socks| == 7
      ensures forall i :: 0 <= i < |socks| ==>
        && (socks[i].name == "Y_N" ==> socks[i].length == Ncw * nFrames)
        && (socks[i].name == "Y_K" || socks[i].name == "V_K" ==> socks[i].length == K * nFrames)
        && (socks[i].name == "sys" ==> socks[i].length == SysStride() * nFrames)
        && (socks[i].name == "par" ==> socks[i].length == ParStride() * nFrames)
      ensures socks[0].task == socks[1].task == ExtractSysLlr && socks[0].name == "Y_N" && socks[1].name == "Y_K"
      ensures socks[2].task == socks[3].task == ExtractSysBit && socks[2].name == "Y_N" && socks[3].name == "V_K"
      ensures socks[4].task == socks[5].task == socks[6].task == ExtractSysPar
      ensures socks[4].name == "Y_N" && socks[5].name == "sys" && socks[6].name == "par"
      ensures socks[5].length + socks[6].length == socks[4].length
    {
      var tb2 := HalfTail(tailLength);
      [ Socket(ExtractSysLlr, "Y_N", Ncw * nFrames), Socket(ExtractSysLlr, "Y_K", K * nFrames),
        Socket(ExtractSysBit, "Y_N", Ncw * nFrames), Socket(ExtractSysBit, "V_K", K * nFrames),
        Socket(ExtractSysPar, "Y_N", Ncw * nFrames),
        Socket(ExtractSysPar, "sys", (K + tb2) * nFrames),
        Socket(ExtractSysPar, "par", (Ncw - K - tb2) * nFrames) ]
    }

    /** Buffers of the lengths the sockets declare pass the size checks of their process. */
    lemma DeclaredSocketsPassChecks()
      requires Valid()
      requires 0 <= SysStride() && 0 <= ParStride()
      ensures forall s :: s in DeclaredSockets() ==> s.length >= 0
      ensures var s := DeclaredSockets();
        && FrameSizeCheck(K, Ncw, nFrames, s[0].length, s[1].length, YKSize) == None
        && FrameSizeCheck(K, Ncw, nFrames, s[2].length, s[3].length, VKSize) == None
        && SysParSizeCheck(K, Ncw, tailLength, nFrames, s[4].length, s[5].length, s[6].length) == None
    {
      var tb2 := HalfTail(tailLength);
      assert 0 <= (K + tb2) * nFrames && 0 <= (Ncw - K - tb2) * nFrames;
    }

    /** `get_sigma`: unset (-1) or the positive value last stored. */
    function GetSigma(): (s: real)
      requires Valid()
      reads this
      ensures s == -1.0 || s > 0.0
    {
      sigma
    }

    /** `set_sigma`: a non-positive value is an `invalid_argument` and changes nothing. */
    method SetSigma(s: real) returns (err: Option<Failure>)
      requires Valid()
      modifies this`sigma
      ensures Valid()
      ensures s <= 0.0 ==> err == Some(InvalidArgument(SigmaNotPositive)) && sigma == old(sigma)
      ensures s > 0.0 ==> err == None && GetSigma() == s
    {
      if s <= 0.0 {
        return Some(InvalidArgument(SigmaNotPositive));
      }
      sigma := s;
      return None;
    }

    /** `get_interleaver`: the stored core, or a `runtime_error` when there is none. */
    function GetInterleaver(): (r: Result<InterleaverCore, Failure>)
      reads this
      ensures r.Failure? <==> interleaverCore == None
      ensures r.Failure? ==> r.error == RuntimeError(InterleaverCoreNull)
      ensures r.Success? ==> interleaverCore == Some(r.value)
    {
      match interleaverCore
      case None => Failure(RuntimeError(InterleaverCoreNull))
      case Some(c) => Success(c)
    }

    /** `get_encoder`: the stored encoder, or a `runtime_error` when there is none. */
    function GetEncoder(): (r: Result<Encoder, Failure>)
      reads this
      ensures r.Failure? <==> encoder == None
      ensures r.Failure? ==> r.error == RuntimeError(EncoderNull)
      ensures r.Success? ==> encoder == Some(r.value)
    {
      match encoder
      case None => Failure(RuntimeError(EncoderNull))
      case Some(e) => Success(e)
    }

    /** `get_puncturer`: the stored puncturer, or a `runtime_error` when there is none. */
    function GetPuncturer(): (r: Result<Puncturer, Failure>)
      reads this
      ensures r.Failure? <==> puncturer == None
      ensures r.Failure? ==> r.error == RuntimeError(PuncturerNull)
      ensures r.Success? ==> puncturer == Some(r.value)
    {
      match puncturer
      case None => Failure(RuntimeError(PuncturerNull))
      case Some(p) => Success(p)
    }

    /** `get_interleaver_bit`: dereferences the bit interleaver, so a core must be set. */
    function GetInterleaverBit(): (itl: Interleaver)
      requires Valid() && interleaverCore.Some?
      reads this
      ensures itl.core == interleaverCore.value && itl.domain == Bits
    {
      interleaverBit.value
    }

    /** `get_interleaver_llr`: dereferences the soft-value interleaver, so a core must be set. */
    function GetInterleaverLlr(): (itl: Interleaver)
      requires Valid() && interleaverCore.Some?
      reads this
      ensures itl.core == interleaverCore.value && itl.domain == Llrs
    {
      interleaverLlr.value
    }

    /** `set_interleaver`: stores the core and builds both interleaver modules over it. */
    method SetInterleaver(core: InterleaverCore)
      requires Valid()
      modifies this`interleaverCore, this`interleaverBit, this`interleaverLlr
      ensures Valid()
      ensures GetInterleaver() == Success(core)
      ensures GetInterleaverBit() == Interleaver(core, Bits)
      ensures GetInterleaverLlr() == Interleaver(core, Llrs)
    {
      interleaverCore := Some(core);
      interleaverBit := Some(Interleaver(core, Bits));
      interleaverLlr := Some(Interleaver(core, Llrs));
    }

    /** `set_encoder`: stores the pointer, null included. */
    method SetEncoder(enc: Option<Encoder>)
      requires Valid()
      modifies this`encoder
      ensures Valid()
      ensures enc.Some? ==> GetEncoder() == Success(enc.value)
      ensures enc.None? ==> GetEncoder() == Failure(RuntimeError(EncoderNull))
    {
      encoder := enc;
    }

    /** `set_puncturer`: stores the pointer, null included. */
    method SetPuncturer(pct: Option<Puncturer>)
      requires Valid()
      modifies this`puncturer
      ensures Valid()
      ensures pct.Some? ==> GetPuncturer() == Success(pct.value)
      ensures pct.None? ==> GetPuncturer() == Failure(RuntimeError(PuncturerNull))
    {
      puncturer := pct;
    }

    /** The per-frame strides of `extract_sys_par`'s systematic and parity outputs. */
    function SysStride(): int
    {
      K + HalfTail(tailLength)
    }

    function ParStride(): int
    {
      Ncw - K - HalfTail(tailLength)
    }

    /**
     * The pointer `extract_sys_llr`: frame `f` of `yN` (at `f * N_cw`) goes to the hook,
     * whose `K` values land at `f * K` in `yK`, for `f` from 0 up. The base class's hook
     * throws at the first frame, before anything is written.
     */
    method ExtractSysLlrFrames(yN: seq<Q>, yK: array<Q>, hook: Hook<Q, seq<Q>>) returns (err: Option<Failure>)
      requires Valid()
      requires Ncw * nFrames <= |yN| && K * nFrames <= yK.Length
      requires hook.Override? ==> Frames.Fits(hook.run, Ncw, K)
      modifies yK
      ensures err == (if nFrames > 0 && hook.Unimplemented? then Some(UnimplementedError) else None)
      ensures hook.Unimplemented? ==> yK[..] == old(yK[..])
      ensures hook.Override? ==>
        yK[..] == Frames.Extracted(hook.run, yN, Ncw, nFrames) + old(yK[..])[K * nFrames..]
    {
      if nFrames == 0 {
        return None;
      }
      match hook
      case Unimplemented =>
        // the base class's hook throws on frame 0, before anything is written
        return Some(UnimplementedError);
      case Override(run) =>
        ghost var slices := Frames.Split(yN, Ncw, nFrames);
        ghost var outs := Frames.Dispatch(run, slices);
        Frames.DispatchUniform(run, slices, Ncw, K);
        var f := 0;
        while f < nFrames
          invariant 0 <= f <= nFrames
          invariant f * K <= yK.Length
          invariant yK[..] == Frames.Flatten(outs[..f]) + old(yK[..])[f * K..]
        {
          Frames.StrideBelow(f, nFrames, Ncw);
          Frames.StrideBelow(f, nFrames, K);
          var frame := run(yN[f * Ncw .. (f + 1) * Ncw], f);
          assert frame == outs[f];
          Frames.StoreFrame(yK, old(yK[..]), outs, f, K, frame);
          f := f + 1;
        }
        assert outs[..f] == outs;
        assert f == nFrames;
        return None;
    }

    /**
     * The vector `extract_sys_llr`: `length_error` unless `yN` holds `N_cw` and `yK`
     * holds `K` values per frame, with `yK` untouched; otherwise the per-frame extraction.
     */
    method ExtractSysLlrChecked(yN: seq<Q>, yK: array<Q>, hook: Hook<Q, seq<Q>>) returns (err: Option<Failure>)
      requires Valid()
      requires hook.Override? ==> Frames.Fits(hook.run, Ncw, K)
      modifies yK
      ensures FrameSizeCheck(K, Ncw, nFrames, |yN|, yK.Length, YKSize).Some? ==>
        err == FrameSizeCheck(K, Ncw, nFrames, |yN|, yK.Length, YKSize) && yK[..] == old(yK[..])
      ensures FrameSizeCheck(K, Ncw, nFrames, |yN|, yK.Length, YKSize).None? ==>
        && err == (if nFrames > 0 && hook.Unimplemented? then Some(UnimplementedError) else None)
        && (hook.Unimplemented? ==> yK[..] == old(yK[..]))
        && (hook.Override? ==> yK[..] == Frames.Extracted(hook.run, yN, Ncw, nFrames))
    {
      err := FrameSizeCheck(K, Ncw, nFrames, |yN|, yK.Length, YKSize);
      if err.Some? {
        return;
      }
      err := ExtractSysLlrFrames(yN, yK, hook);
    }

    /**
     * The pointer `extract_sys_bit`: as `extract_sys_llr`, with the hook producing
     * `K` hard bits per frame into `vK`.
     */
    method ExtractSysBitFrames(yN: seq<Q>, vK: array<B>, hook: Hook<Q, seq<B>>) returns (err: Option<Failure>)
      requires Valid()
      requires Ncw * nFrames <= |yN| && K * nFrames <= vK.Length
      requires hook.Override? ==> Frames.Fits(hook.run, Ncw, K)
      modifies vK
      ensures err == (if nFrames > 0 && hook.Unimplemented? then Some(UnimplementedError) else None)
      ensures hook.Unimplemented? ==> vK[..] == old(vK[..])
      ensures hook.Override? ==>
        vK[..] == Frames.Extracted(hook.run, yN, Ncw, nFrames) + old(vK[..])[K * nFrames..]
    {
      if nFrames == 0 {
        return None;
      }
      match hook
      case Unimplemented =>
        // the base class's hook throws on frame 0, before anything is written
        return Some(UnimplementedError);
      case Override(run) =>
        ghost var slices := Frames.Split(yN, Ncw, nFrames);
        ghost var outs := Frames.Dispatch(run, slices);
        Frames.DispatchUniform(run, slices, Ncw, K);
        var f := 0;
        while f < nFrames
          invariant 0 <= f <= nFrames
          invariant f * K <= vK.Length
          invariant vK[..] == Frames.Flatten(outs[..f]) + old(vK[..])[f * K..]
        {
          Frames.StrideBelow(f, nFrames, Ncw);
          Frames.StrideBelow(f, nFrames, K);
          var frame := run(yN[f * Ncw .. (f + 1) * Ncw], f);
          assert frame == outs[f];
          Frames.StoreFrame(vK, old(vK[..]), outs, f, K, frame);
          f := f + 1;
        }
        assert outs[..f] == outs;
        assert f == nFrames;
        return None;
    }

    /**
     * The vector `extract_sys_bit`: `length_error` unless `yN` holds `N_cw` and `vK`
     * holds `K` values per frame, with `vK` untouched; otherwise the per-frame extraction.
     */
    method ExtractSysBitChecked(yN: seq<Q>, vK: array<B>, hook: Hook<Q, seq<B>>) returns (err: Option<Failure>)
      requires Valid()
      requires hook.Override? ==> Frames.Fits(hook.run, Ncw, K)
      modifies vK
      ensures FrameSizeCheck(K, Ncw, nFrames, |yN|, vK.Length, VKSize).Some? ==>
        err == FrameSizeCheck(K, Ncw, nFrames, |yN|, vK.Length, VKSize) && vK[..] == old(vK[..])
      ensures FrameSizeCheck(K, Ncw, nFrames, |yN|, vK.Length, VKSize).None? ==>
        && err == (if nFrames > 0 && hook.Unimplemented? then Some(UnimplementedError) else None)
        && (hook.Unimplemented? ==> vK[..] == old(vK[..]))
        && (hook.Override? ==> vK[..] == Frames.Extracted(hook.run, yN, Ncw, nFrames))
    {
      err := FrameSizeCheck(K, Ncw, nFrames, |yN|, vK.Length, VKSize);
      if err.Some? {
        return;
      }
      err := ExtractSysBitFrames(yN, vK, hook);
    }

    /**
     * The pointer `extract_sys_par`: frame `f` of `yN` goes to the hook, whose
     * systematic part lands at `f * (K + tb_2)` in `sys` and whose parity part
     * lands at `f * (N_cw - K - tb_2)` in `par`.
     */
    method ExtractSysParFrames(yN: seq<Q>, sys: array<Q>, par: array<Q>, hook: Hook<Q, (seq<Q>, seq<Q>)>)
      returns (err: Option<Failure>)
      requires Valid() && sys != par
      requires hook.Override? && nFrames > 0 ==> 0 <= SysStride() && 0 <= ParStride()
      requires Ncw * nFrames <= |yN|
      requires SysStride() * nFrames <= sys.Length && ParStride() * nFrames <= par.Length
      requires hook.Override? && nFrames > 0 ==>
        Frames.Fits(SysPart(hook.run), Ncw, SysStride()) && Frames.Fits(ParPart(hook.run), Ncw, ParStride())
      modifies sys, par
      ensures err == (if nFrames > 0 && hook.Unimplemented? then Some(UnimplementedError) else None)
      ensures hook.Unimplemented? || nFrames == 0 ==> sys[..] == old(sys[..]) && par[..] == old(par[..])
      ensures hook.Override? && nFrames > 0 ==>
        && sys[..] == Frames.Extracted(SysPart(hook.run), yN, Ncw, nFrames) + old(sys[..])[SysStride() * nFrames..]
        && par[..] == Frames.Extracted(ParPart(hook.run), yN, Ncw, nFrames) + old(par[..])[ParStride() * nFrames..]
    {
      if nFrames == 0 {
        return None;
      }
      match hook
      case Unimplemented =>
        // the base class's hook throws on frame 0, before anything is written
        return Some(UnimplementedError);
      case Override(run) =>
        SysParLoop(yN, sys, par, run);
        return None;
    }

    /** The frame loop of `extract_sys_par` with a hook that does not throw. */
    method SysParLoop(yN: seq<Q>, sys: array<Q>, par: array<Q>, run: (seq<Q>, nat) -> (seq<Q>, seq<Q>))
      requires Valid() && sys != par && nFrames > 0
      requires 0 <= SysStride() && 0 <= ParStride()
      requires Ncw * nFrames <= |yN|
      requires SysStride() * nFrames <= sys.Length && ParStride() * nFrames <= par.Length
      requires Frames.Fits(SysPart(run), Ncw, SysStride()) && Frames.Fits(ParPart(run), Ncw, ParStride())
      modifies sys, par
      ensures sys[..] == Frames.Extracted(SysPart(run), yN, Ncw, nFrames) + old(sys[..])[SysStride() * nFrames..]
      ensures par[..] == Frames.Extracted(ParPart(run), yN, Ncw, nFrames) + old(par[..])[ParStride() * nFrames..]
    {
      var sysStride: nat, parStride: nat := SysStride(), ParStride();
      ghost var slices := Frames.Split(yN, Ncw, nFrames);
      ghost var sysOuts := Frames.Dispatch(SysPart(run), slices);
      ghost var parOuts := Frames.Dispatch(ParPart(run), slices);
      Frames.DispatchUniform(SysPart(run), slices, Ncw, sysStride);
      Frames.DispatchUniform(ParPart(run), slices, Ncw, parStride);
      var f := 0;
      while f < nFrames
        invariant 0 <= f <= nFrames
        invariant f * sysStride <= sys.Length && f * parStride <= par.Length
        invariant sys[..] == Frames.Flatten(sysOuts[..f]) + old(sys[..])[f * sysStride..]
        invariant par[..] == Frames.Flatten(parOuts[..f]) + old(par[..])[f * parStride..]
      {
        Frames.StrideBelow(f, nFrames, Ncw);
        Frames.StrideBelow(f, nFrames, sysStride);
        Frames.StrideBelow(f, nFrames, parStride);
        var frame := run(yN[f * Ncw .. (f + 1) * Ncw], f);
        assert frame.0 == sysOuts[f] && frame.1 == parOuts[f];
        Frames.StoreFrame(sys, old(sys[..]), sysOuts, f, sysStride, frame.0);
        Frames.StoreFrame(par, old(par[..]), parOuts, f, parStride, frame.1);
        f := f + 1;
      }
      assert sysOuts[..f] == sysOuts && parOuts[..f] == parOuts;
      assert f == nFrames && sysStride == SysStride() && parStride == ParStride();
    }

    /**
     * The vector `extract_sys_par`: `length_error` unless the three buffers have the
     * per-frame lengths `N_cw`, `K + tb_2` and `N_cw - K - tb_2`, with `sys` and `par`
     * untouched; otherwise the per-frame extraction.
     */
    method ExtractSysParChecked(yN: seq<Q>, sys: array<Q>, par: array<Q>, hook: Hook<Q, (seq<Q>, seq<Q>)>)
      returns (err: Option<Failure>)
      requires Valid() && sys != par
      requires hook.Override? && 0 <= SysStride() && 0 <= ParStride() ==>
        Frames.Fits(SysPart(hook.run), Ncw, SysStride()) && Frames.Fits(ParPart(hook.run), Ncw, ParStride())
      modifies sys, par
      ensures SysParSizeCheck(K, Ncw, tailLength, nFrames, |yN|, sys.Length, par.Length).Some? ==>
        && err == SysParSizeCheck(K, Ncw, tailLength, nFrames, |yN|, sys.Length, par.Length)
        && sys[..] == old(sys[..]) && par[..] == old(par[..])
      ensures SysParSizeCheck(K, Ncw, tailLength, nFrames, |yN|, sys.Length, par.Length).None? ==>
        && err == (if nFrames > 0 && hook.Unimplemented? then Some(UnimplementedError) else None)
        && (hook.Unimplemented? || nFrames == 0 ==> sys[..] == old(sys[..]) && par[..] == old(par[..]))
        && (hook.Override? && nFrames > 0 ==>
              && sys[..] == Frames.Extracted(SysPart(hook.run), yN, Ncw, nFrames)
              && par[..] == Frames.Extracted(ParPart(hook.run), yN, Ncw, nFrames))
    {
      err := SysParSizeCheck(K, Ncw, tailLength, nFrames, |yN|, sys.Length, par.Length);
      if err.Some? {
        return;
      }
      SysParSizesCoverInput(K, Ncw, tailLength, nFrames, |yN|, sys.Length, par.Length);
      err := ExtractSysParFrames(yN, sys, par, hook);
    }
  }
}
