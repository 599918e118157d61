/** The flat parameter vector handed to the sampler and its named-field view
    (`to_params`), the hard-bound prior (`log_prior`), the dimension count and
    the starting-guess slices of `start_nbda`. */
module ParameterCodec {
  import opened Utils

  /** `recovery_prob`: `np.inf` when recovery is not modelled, otherwise the
      (low, high) prior bounds of `gamma`. */
  datatype Recovery = NoRecovery | RecoveryPrior(lo: real, hi: real)

  /** The arguments that fix the vector layout in `to_params`. */
  datatype Config = Config(recovery: Recovery, diagLag: bool, nullComparison: bool, nsick: nat)

  datatype FieldName = Beta | Alpha | Gamma | DiagLag | Model

  /** One entry of a numpy structured dtype: a name and a number of float slots. */
  datatype Field = Field(name: FieldName, width: nat)

  /** The dtype that `to_params` builds, branch by branch. */
  function Fields(c: Config): seq<Field> {
    var beta, alpha, model := Field(Beta, 1), Field(Alpha, 1), Field(Model, 1);
    var lag := Field(DiagLag, c.nsick);
    if c.recovery.NoRecovery? then
      if c.diagLag && c.nullComparison then [beta, alpha, lag, model]
      else if c.nullComparison then [beta, alpha, model]
      else if c.diagLag then [beta, alpha, lag]
      else [beta, alpha]
    else
      var gamma := Field(Gamma, 1);
      if c.diagLag && c.nullComparison then [beta, alpha, gamma, lag, model]
      else if c.nullComparison then [beta, alpha, gamma, model]
      else if c.diagLag then [beta, alpha, gamma, lag]
      else [beta, alpha, gamma]
  }

  function Width(fs: seq<Field>): nat {
    if fs == [] then 0 else fs[0].width + Width(fs[1..])
  }

  /** Number of floats one record of the dtype occupies. */
  function Size(c: Config): (n: nat)
    ensures n == BaseDim(c) + (if c.diagLag then c.nsick else 0) + (if c.nullComparison then 1 else 0)
  {
    FieldsShape(c);
    ShapeOffset(c.recovery.RecoveryPrior?, c.diagLag, c.nullComparison, c.nsick, Beta);
    Width(Fields(c))
  }

  /** Position of the named field in the flat vector, if the dtype has it. */
  function OffsetOf(fs: seq<Field>, n: FieldName): (o: Option<nat>)
    ensures o.Some? ==> o.value + WidthOf(fs, n) <= Width(fs)
  {
    if fs == [] then None
    else if fs[0].name == n then Some(0)
    else match OffsetOf(fs[1..], n)
      case None => None
      case Some(o) => Some(fs[0].width + o)
  }

  /** Width of the first field of that name (0 when there is none). */
  function WidthOf(fs: seq<Field>, n: FieldName): nat {
    if fs == [] then 0 else if fs[0].name == n then fs[0].width else WidthOf(fs[1..], n)
  }

  /** The named-field view: scalars for beta, alpha, gamma and model, an array
      for diag_lag; a field the dtype lacks is absent (a `KeyError` in numpy). */
  datatype Params = Params(beta: real, alpha: real, gamma: Option<real>,
                           diagLag: Option<seq<real>>, model: Option<real>)

  function Opt(present: bool, f: Field): (r: seq<Field>)
    ensures Width(r) == if present then f.width else 0
    ensures forall n :: OffsetOf(r, n) == if present && f.name == n then Some(0) else None
    ensures forall n :: WidthOf(r, n) == if present && f.name == n then f.width else 0
  {
    if present then
      assert [f][1..] == [];
      [f]
    else []
  }

  /** Every branch of `to_params` lists beta, alpha, then the optional gamma,
      diag_lag and model fields in that order. */
  lemma FieldsShape(c: Config)
    ensures Fields(c) == [Field(Beta, 1), Field(Alpha, 1)]
      + Opt(c.recovery.RecoveryPrior?, Field(Gamma, 1))
      + Opt(c.diagLag, Field(DiagLag, c.nsick))
      + Opt(c.nullComparison, Field(Model, 1))
  {
  }

  lemma {:induction false} AppendWidth(xs: seq<Field>, ys: seq<Field>)
    ensures Width(xs + ys) == Width(xs) + Width(ys)
  {
    if xs == [] {
      assert xs + ys == ys;
    } else {
      assert (xs + ys)[1..] == xs[1..] + ys;
      AppendWidth(xs[1..], ys);
    }
  }

  /** Where a field sits in two dtypes laid end to end. */
  lemma AppendLayout(xs: seq<Field>, ys: seq<Field>, n: FieldName)
    ensures OffsetOf(xs + ys, n) ==
      if OffsetOf(xs, n).Some? then OffsetOf(xs, n)
      else match OffsetOf(ys, n) case None => None case Some(o) => Some(Width(xs) + o)
    ensures WidthOf(xs + ys, n) == if OffsetOf(xs, n).Some? then WidthOf(xs, n) else WidthOf(ys, n)
  {
    AppendOffset(xs, ys, n);
    AppendWidthOf(xs, ys, n);
  }

  lemma {:induction false} AppendOffset(xs: seq<Field>, ys: seq<Field>, n: FieldName)
    ensures OffsetOf(xs + ys, n) ==
      if OffsetOf(xs, n).Some? then OffsetOf(xs, n)
      else match OffsetOf(ys, n) case None => None case Some(o) => Some(Width(xs) + o)
  {
    if xs == [] {
      assert xs + ys == ys;
    } else {
      assert (xs + ys)[1..] == xs[1..] + ys;
      AppendOffset(xs[1..], ys, n);
    }
  }

  lemma {:induction false} AppendWidthOf(xs: seq<Field>, ys: seq<Field>, n: FieldName)
    ensures WidthOf(xs + ys, n) == if OffsetOf(xs, n).Some? then WidthOf(xs, n) else WidthOf(ys, n)
  {
    if xs == [] {
      assert xs + ys == ys;
    } else {
      assert (xs + ys)[1..] == xs[1..] + ys;
      AppendWidthOf(xs[1..], ys, n);
    }
  }

  /** The slot layout of every configuration: beta at 0, alpha at 1, gamma at 2
      only with recovery, the diag-lag block from `ndim_base` over `nsick` slots,
      and `model` in the last slot. */
  lemma Offsets(c: Config)
    ensures Size(c) == BaseDim(c) + (if c.diagLag then c.nsick else 0) + (if c.nullComparison then 1 else 0)
    ensures OffsetOf(Fields(c), Beta) == Some(0) && WidthOf(Fields(c), Beta) == 1
    ensures OffsetOf(Fields(c), Alpha) == Some(1) && WidthOf(Fields(c), Alpha) == 1
    ensures OffsetOf(Fields(c), Gamma) == (if c.recovery.RecoveryPrior? then Some(2) else None)
    ensures c.recovery.RecoveryPrior? ==> WidthOf(Fields(c), Gamma) == 1
    ensures OffsetOf(Fields(c), DiagLag) == (if c.diagLag then Some(BaseDim(c)) else None)
    ensures c.diagLag ==> WidthOf(Fields(c), DiagLag) == c.nsick
    ensures OffsetOf(Fields(c), Model) == (if c.nullComparison then Some(Size(c) - 1) else None)
    ensures c.nullComparison ==> WidthOf(Fields(c), Model) == 1
  {
    FieldsShape(c);
    var rec := c.recovery.RecoveryPrior?;
    ShapeOffset(rec, c.diagLag, c.nullComparison, c.nsick, Beta);
    ShapeOffset(rec, c.diagLag, c.nullComparison, c.nsick, Alpha);
    ShapeOffset(rec, c.diagLag, c.nullComparison, c.nsick, Gamma);
    ShapeOffset(rec, c.diagLag, c.nullComparison, c.nsick, DiagLag);
    ShapeOffset(rec, c.diagLag, c.nullComparison, c.nsick, Model);
  }

  function Shape(rec: bool, dl: bool, nc: bool, k: nat): seq<Field> {
    [Field(Beta, 1), Field(Alpha, 1)] + Opt(rec, Field(Gamma, 1)) + Opt(dl, Field(DiagLag, k)) + Opt(nc, Field(Model, 1))
  }

  /** The fixed head of every dtype: beta then alpha. */
  lemma HeadLayout(n: FieldName)
    ensures Width([Field(Beta, 1), Field(Alpha, 1)]) == 2
    ensures OffsetOf([Field(Beta, 1), Field(Alpha, 1)], n) == match n case Beta => Some(0) case Alpha => Some(1) case _ => None
    ensures WidthOf([Field(Beta, 1), Field(Alpha, 1)], n) == match n case Beta => 1 case Alpha => 1 case _ => 0
  {
    var ba := [Field(Beta, 1), Field(Alpha, 1)];
    assert ba[1..][1..] == [];
  }

  lemma ShapeWidth(rec: bool, dl: bool, nc: bool, k: nat)
    ensures Width(Shape(rec, dl, nc, k)) == 2 + (if rec then 1 else 0) + (if dl then k else 0) + (if nc then 1 else 0)
  {
    var ba := [Field(Beta, 1), Field(Alpha, 1)];
    var g := Opt(rec, Field(Gamma, 1));
    var l := Opt(dl, Field(DiagLag, k));
    var m := Opt(nc, Field(Model, 1));
    HeadLayout(Beta);
    AppendWidth(ba + g + l, m);
    AppendWidth(ba + g, l);
    AppendWidth(ba, g);
  }

  lemma ShapeOffset(rec: bool, dl: bool, nc: bool, k: nat, n: FieldName)
    ensures Width(Shape(rec, dl, nc, k)) == 2 + (if rec then 1 else 0) + (if dl then k else 0) + (if nc then 1 else 0)
    ensures OffsetOf(Shape(rec, dl, nc, k), n) ==
      match n
      case Beta => Some(0)
      case Alpha => Some(1)
      case Gamma => if rec then Some(2) else None
      case DiagLag => if dl then Some(2 + (if rec then 1 else 0)) else None
      case Model => if nc then Some(Width(Shape(rec, dl, nc, k)) - 1) else None
    ensures WidthOf(Shape(rec, dl, nc, k), n) ==
      match n
      case DiagLag => if dl then k else 0
      case Beta => 1
      case Alpha => 1
      case Gamma => if rec then 1 else 0
      case Model => if nc then 1 else 0
  {
    ShapeWidth(rec, dl, nc, k);
    ShapeOffsetOf(rec, dl, nc, k, n);
    ShapeWidthOf(rec, dl, nc, k, n);
  }

  lemma ShapeOffsetOf(rec: bool, dl: bool, nc: bool, k: nat, n: FieldName)
    ensures OffsetOf(Shape(rec, dl, nc, k), n) ==
      match n
      case Beta => Some(0)
      case Alpha => Some(1)
      case Gamma => if rec then Some(2) else None
      case DiagLag => if dl then Some(2 + (if rec then 1 else 0)) else None
      case Model => if nc then Some(Width(Shape(rec, dl, nc, k)) - 1) else None
  {
    var ba := [Field(Beta, 1), Field(Alpha, 1)];
    var g := Opt(rec, Field(Gamma, 1));
    var l := Opt(dl, Field(DiagLag, k));
    var m := Opt(nc, Field(Model, 1));
    HeadLayout(n);
    ShapeWidth(rec, dl, nc, k);
    AppendWidth(ba + g, l);
    AppendWidth(ba, g);
    AppendOffset(ba + g + l, m, n);
    AppendOffset(ba + g, l, n);
    AppendOffset(ba, g, n);
  }

  lemma ShapeWidthOf(rec: bool, dl: bool, nc: bool, k: nat, n: FieldName)
    ensures WidthOf(Shape(rec, dl, nc, k), n) ==
      match n
      case DiagLag => if dl then k else 0
      case Beta => 1
      case Alpha => 1
      case Gamma => if rec then 1 else 0
      case Model => if nc then 1 else 0
  {
    var ba := [Field(Beta, 1), Field(Alpha, 1)];
    var g := Opt(rec, Field(Gamma, 1));
    var l := Opt(dl, Field(DiagLag, k));
    var m := Opt(nc, Field(Model, 1));
    HeadLayout(n);
    AppendLayout(ba + g + l, m, n);
    AppendLayout(ba + g, l, n);
    AppendLayout(ba, g, n);
  }

  /** `to_params(arr, ...)`: each field of the dtype read at its offset. */
  function ToParams(v: seq<real>, c: Config): (p: Params)
    requires |v| == Size(c)
  {
    var fs := Fields(c);
    Params(Scalar(v, fs, Beta, 0.0), Scalar(v, fs, Alpha, 0.0),
           if OffsetOf(fs, Gamma).Some? then Some(Scalar(v, fs, Gamma, 0.0)) else None,
           match OffsetOf(fs, DiagLag)
             case Some(o) => Some(v[o..o + WidthOf(fs, DiagLag)])
             case None => None,
           if OffsetOf(fs, Model).Some? then Some(Scalar(v, fs, Model, 0.0)) else None)
  }

  /** `p[name][0]` for a scalar field (the default stands for a missing field). */
  function Scalar(v: seq<real>, fs: seq<Field>, n: FieldName, default: real): real
    requires |v| == Width(fs)
  {
    match OffsetOf(fs, n)
    case Some(o) => if o < |v| then v[o] else default
    case None => default
  }

  /** Decoding reads beta at slot 0, alpha at 1, gamma at 2 (with recovery
      only), diag_lag from `ndim_base` over `nsick` slots and model last. */
  lemma {:induction false} Layout(v: seq<real>, c: Config)
    requires |v| == Size(c)
    ensures |v| == BaseDim(c) + (if c.diagLag then c.nsick else 0) + (if c.nullComparison then 1 else 0)
    ensures ToParams(v, c).beta == v[0] && ToParams(v, c).alpha == v[1]
    ensures ToParams(v, c).gamma == if c.recovery.RecoveryPrior? then Some(v[2]) else None
    ensures ToParams(v, c).diagLag ==
              if c.diagLag then Some(v[BaseDim(c)..BaseDim(c) + c.nsick]) else None
    ensures ToParams(v, c).model == if c.nullComparison then Some(v[|v| - 1]) else None
  {
    Offsets(c);
  }

  /** A named view fits a configuration when it has exactly its fields, with
      `nsick` diag-lag entries. */
  predicate Fits(p: Params, c: Config) {
    && (p.gamma.Some? <==> c.recovery.RecoveryPrior?)
    && (p.diagLag.Some? <==> c.diagLag)
    && (p.diagLag.Some? ==> |p.diagLag.value| == c.nsick)
    && (p.model.Some? <==> c.nullComparison)
  }

  /** The slice of a named view for one dtype field. */
  function Slot(p: Params, f: Field): seq<real> {
    match f.name
    case Beta => [p.beta]
    case Alpha => [p.alpha]
    case Gamma => if p.gamma.Some? then [p.gamma.value] else []
    case DiagLag => if p.diagLag.Some? then p.diagLag.value else []
    case Model => if p.model.Some? then [p.model.value] else []
  }

  /** The inverse of the view: the dtype's fields laid end to end. */
  function Flatten(fs: seq<Field>, p: Params): seq<real> {
    if fs == [] then [] else Slot(p, fs[0]) + Flatten(fs[1..], p)
  }

  function Encode(p: Params, c: Config): seq<real> {
    Flatten(Fields(c), p)
  }

  lemma FlattenOpt(present: bool, f: Field, p: Params)
    ensures Flatten(Opt(present, f), p) == if present then Slot(p, f) else []
  {
    if present {
      assert Opt(present, f)[1..] == [];
    }
  }

  /** Encoding writes the fields in the order beta, alpha, gamma, diag_lag, model. */
  lemma EncodeLayout(p: Params, c: Config)
    requires Fits(p, c)
    ensures Encode(p, c) == [p.beta, p.alpha]
      + (if c.recovery.RecoveryPrior? then [p.gamma.value] else [])
      + (if c.diagLag then p.diagLag.value else [])
      + (if c.nullComparison then [p.model.value] else [])
  {
    FieldsShape(c);
    var ba := [Field(Beta, 1), Field(Alpha, 1)];
    var g := Opt(c.recovery.RecoveryPrior?, Field(Gamma, 1));
    var l := Opt(c.diagLag, Field(DiagLag, c.nsick));
    var m := Opt(c.nullComparison, Field(Model, 1));
    FlattenAppend(ba + g + l, m, p);
    FlattenAppend(ba + g, l, p);
    FlattenAppend(ba, g, p);
    assert ba[1..][1..] == [];
    assert Flatten(ba, p) == [p.beta, p.alpha];
    FlattenOpt(c.recovery.RecoveryPrior?, Field(Gamma, 1), p);
    FlattenOpt(c.diagLag, Field(DiagLag, c.nsick), p);
    FlattenOpt(c.nullComparison, Field(Model, 1), p);
  }

  lemma {:induction false} FlattenAppend(xs: seq<Field>, ys: seq<Field>, p: Params)
    ensures Flatten(xs + ys, p) == Flatten(xs, p) + Flatten(ys, p)
  {
    if xs == [] {
      assert xs + ys == ys;
    } else {
      assert (xs + ys)[1..] == xs[1..] + ys;
      FlattenAppend(xs[1..], ys, p);
    }
  }

  /** Decoding an encoded named view gives it back. */
  lemma DecodeEncode(p: Params, c: Config)
    requires Fits(p, c)
    ensures |Encode(p, c)| == Size(c)
    ensures ToParams(Encode(p, c), c) == p
  {
    EncodeLayout(p, c);
    Offsets(c);
    var v := Encode(p, c);
    var base := BaseDim(c);
    if c.diagLag {
      assert v[base..base + c.nsick] == p.diagLag.value;
    }
  }

  /** Encoding a decoded vector gives it back. */
  lemma EncodeDecode(v: seq<real>, c: Config)
    requires |v| == Size(c)
    ensures Fits(ToParams(v, c), c)
    ensures Encode(ToParams(v, c), c) == v
  {
    Layout(v, c);
    var p := ToParams(v, c);
    EncodeLayout(p, c);
    var k := if c.diagLag then c.nsick else 0;
    SplitVector(v, c.recovery.RecoveryPrior?, k, c.nullComparison);
    assert (if c.diagLag then p.diagLag.value else []) == v[BaseDim(c)..BaseDim(c) + k];
  }

  /** A vector laid out as beta, alpha, an optional gamma, `k` lags and an
      optional model slot is the concatenation of those parts. */
  lemma SplitVector(v: seq<real>, rec: bool, k: nat, nc: bool)
    requires |v| == (if rec then 3 else 2) + k + (if nc then 1 else 0)
    ensures var b := if rec then 3 else 2;
      v == [v[0], v[1]] + (if rec then [v[2]] else []) + v[b..b + k] + (if nc then [v[|v| - 1]] else [])
  {
    var b := if rec then 3 else 2;
    if rec {
      assert [v[0], v[1]] + [v[2]] == v[..3];
    } else {
      assert [v[0], v[1]] + [] == v[..2];
    }
    if nc {
      assert [v[|v| - 1]] == v[b + k..];
    } else {
      assert [] == v[b + k..];
    }
    assert v[b..] == v[b..b + k] + v[b + k..];
    assert v == v[..b] + v[b..];
  }

  // ------------------------------------------------------------ layout facts

  /** `ndim_base` of `start_nbda`: beta, alpha and, when recovery is modelled, gamma. */
  function BaseDim(c: Config): nat {
    if c.recovery.RecoveryPrior? then 3 else 2
  }

  // ------------------------------------------------------------------ prior

  /** `priors`: ((beta low, beta high), (alpha low, alpha high)). */
  datatype Priors = Priors(betaLo: real, betaHi: real, alphaLo: real, alphaHi: real)

  /** The value of `log_prior`: `-np.inf`, or the power-law log density with
      shape 4 evaluated at a point where it is finite. */
  datatype PriorValue = NegInf | PowerLawLogPdf(at: real)

  const LagFloor: real := 0.000001

  predicate InClosed(x: real, lo: real, hi: real) { lo <= x <= hi }

  /** `(arr < 0.000001).any() or (arr > 1).any()` */
  function AnyLagOutside(s: seq<real>): bool {
    if s == [] then false else s[0] < LagFloor || s[0] > 1.0 || AnyLagOutside(s[1..])
  }

  /** `log_prior`: each field outside its closed prior interval rejects the
      vector; otherwise the value is `ss.powerlaw.logpdf(1 - alpha, 4)`, that
      is log 4 + 3 log(1 - alpha) on its support [0, 1]. That density is
      itself -inf at 0 and outside the support, so for alpha >= 1 or
      alpha < 0. */
  function LogPrior(v: seq<real>, pr: Priors, c: Config): (r: PriorValue)
    requires |v| == Size(c)
    ensures r.PowerLawLogPdf? ==> r.at == 1.0 - v[1] && 0.0 < r.at <= 1.0
  {
    Layout(v, c);
    var p := ToParams(v, c);
    if p.beta < pr.betaLo || p.beta > pr.betaHi then NegInf
    else if p.alpha < pr.alphaLo || p.alpha > pr.alphaHi then NegInf
    else if c.recovery.RecoveryPrior? && (p.gamma.value < c.recovery.lo || p.gamma.value > c.recovery.hi) then NegInf
    else if c.diagLag && AnyLagOutside(p.diagLag.value) then NegInf
    else if c.nullComparison && (p.model.value < LagFloor || p.model.value > 1.0) then NegInf
    else if !(0.0 < 1.0 - p.alpha <= 1.0) then NegInf
    else PowerLawLogPdf(1.0 - p.alpha)
  }

  /** The prior is -inf exactly when one of the slots leaves its closed
      bound, or the power-law density is -inf at `1 - alpha`. */
  lemma LogPriorRejects(v: seq<real>, pr: Priors, c: Config)
    requires |v| == Size(c)
    ensures LogPrior(v, pr, c).NegInf? <==>
      || !InClosed(v[0], pr.betaLo, pr.betaHi)
      || !InClosed(v[1], pr.alphaLo, pr.alphaHi)
      || (c.recovery.RecoveryPrior? && !InClosed(v[2], c.recovery.lo, c.recovery.hi))
      || (c.diagLag && exists i :: BaseDim(c) <= i < BaseDim(c) + c.nsick && !InClosed(v[i], LagFloor, 1.0))
      || (c.nullComparison && !InClosed(v[|v| - 1], LagFloor, 1.0))
      || !(0.0 < 1.0 - v[1] <= 1.0)
  {
    Layout(v, c);
    if c.diagLag {
      var lags := v[BaseDim(c)..BaseDim(c) + c.nsick];
      AnyLagOutsideMeans(lags);
      assert forall i :: 0 <= i < |lags| ==> lags[i] == v[BaseDim(c) + i];
      if exists i :: BaseDim(c) <= i < BaseDim(c) + c.nsick && !InClosed(v[i], LagFloor, 1.0) {
        var i :| BaseDim(c) <= i < BaseDim(c) + c.nsick && !InClosed(v[i], LagFloor, 1.0);
        assert !InClosed(lags[i - BaseDim(c)], LagFloor, 1.0);
      }
    }
  }

  lemma {:induction false} AnyLagOutsideMeans(s: seq<real>)
    ensures AnyLagOutside(s) <==> exists i :: 0 <= i < |s| && !InClosed(s[i], LagFloor, 1.0)
  {
    if s != [] {
      AnyLagOutsideMeans(s[1..]);
      if AnyLagOutside(s[1..]) {
        var i :| 0 <= i < |s[1..]| && !InClosed(s[1..][i], LagFloor, 1.0);
        assert !InClosed(s[i + 1], LagFloor, 1.0);
      }
    }
  }

  // ------------------------------------------------------- start_nbda slices

  /** The dimension arithmetic of `start_nbda`: `nsick_param` is the number of
      contact-day keys only when diagnosis lag is on, then
      `ndim = ndim_base + nsick_param (+ 1 for null comparison)`. */
  method StartDimensions(recovery: Recovery, diagLag: bool, nullComparison: bool, contactKeys: nat)
    returns (nsick: nat, ndimBase: nat, ndim: nat)
    ensures nsick == if diagLag then contactKeys else 0
    ensures ndim == Size(Config(recovery, diagLag, nullComparison, nsick))
    ensures ndimBase == BaseDim(Config(recovery, diagLag, nullComparison, nsick))
  {
    if diagLag { nsick := contactKeys; } else { nsick := 0; }
    ndimBase := 2;
    if recovery.RecoveryPrior? { ndimBase := ndimBase + 1; }
    ndim := ndimBase + nsick;
    if nullComparison { ndim := ndim + 1; }
    Offsets(Config(recovery, diagLag, nullComparison, nsick));
  }

  /** One walker's row of `starting_guess`: beta, `1 - power draw` for alpha,
      gamma, the diag-lag block and the null-comparison slot written into the
      slices `start_nbda` uses. Every slot is written, so decoding the row gives
      exactly the draws. */
  method FillStartingGuess(row: array<real>, c: Config, betaDraw: real, powerDraw: real,
                           gammaDraw: real, lagDraws: seq<real>, modelDraw: real)
    requires row.Length == Size(c)
    requires c.diagLag || c.nsick == 0
    requires |lagDraws| == c.nsick
    modifies row
    ensures ToParams(row[..], c) ==
      Params(betaDraw, 1.0 - powerDraw,
             if c.recovery.RecoveryPrior? then Some(gammaDraw) else None,
             if c.diagLag then Some(lagDraws) else None,
             if c.nullComparison then Some(modelDraw) else None)
  {
    var base := BaseDim(c);
    Offsets(c);
    row[0] := betaDraw;
    row[1] := 1.0 - powerDraw;
    if c.recovery.RecoveryPrior? { row[2] := gammaDraw; }
    if c.diagLag {
      for i := 0 to c.nsick
        invariant row[0] == betaDraw && row[1] == 1.0 - powerDraw
        invariant c.recovery.RecoveryPrior? ==> row[2] == gammaDraw
        invariant forall k :: 0 <= k < i ==> row[base + k] == lagDraws[k]
      {
        row[base + i] := lagDraws[i];
      }
    }
    if c.nullComparison { row[row.Length - 1] := modelDraw; }
    GuessParams(row[..], c, betaDraw, 1.0 - powerDraw, gammaDraw, lagDraws, modelDraw);
  }

  /** A vector holding each draw in its field's slots decodes to those draws. */
  lemma GuessParams(v: seq<real>, c: Config, beta: real, alpha: real, gamma: real, lags: seq<real>, model: real)
    requires |v| == Size(c) && (c.diagLag || c.nsick == 0) && |lags| == c.nsick
    requires v[0] == beta && v[1] == alpha
    requires c.recovery.RecoveryPrior? ==> v[2] == gamma
    requires c.diagLag ==> forall k :: 0 <= k < c.nsick ==> v[BaseDim(c) + k] == lags[k]
    requires c.nullComparison ==> v[|v| - 1] == model
    ensures ToParams(v, c) ==
      Params(beta, alpha,
             if c.recovery.RecoveryPrior? then Some(gamma) else None,
             if c.diagLag then Some(lags) else None,
             if c.nullComparison then Some(model) else None)
  {
    Layout(v, c);
    if c.diagLag {
      var base := BaseDim(c);
      var slots := v[base..base + c.nsick];
      forall k | 0 <= k < c.nsick ensures slots[k] == lags[k] {
        assert slots[k] == v[base + k];
      }
      assert slots == lags;
    }
  }
}
