/**
 * The argument handling of the `scale` effect's callback: how the
 * positional parameters choose the two scale factors and the edge mode, and
 * when the callback gives up and returns the empty string. The markup it
 * returns otherwise is not modelled; `Some` stands for it.
 */
module ScaleEffect {
  import opened Wrappers
  import opened ParseFloat
  import opened FilterParser

  /** A JavaScript number as `Number(...)` produces it for a parsed parameter. */
  datatype JsNumber = Fin(value: real) | Inf(negative: bool) | NaN

  /**
   * `Number(p)`. A string parameter is one `parseFloat` rejected: it has no
   * numeric prefix, so `Number` of it is NaN as well.
   */
  function ToNumber(p: Param): JsNumber {
    match p
    case Num(Finite(v)) => Fin(v)
    case Num(Infinite(neg)) => Inf(neg)
    case Str(_) => NaN
  }

  datatype EdgeMode = Duplicate | Wrap | NoEdge

  /** `["duplicate", "wrap", "none"].includes(edgeMode) ? edgeMode : "none"`; `None` is `undefined`. */
  function NormalizeEdge(edge: Option<Param>): EdgeMode {
    if edge == Some(Str("duplicate")) then Duplicate
    else if edge == Some(Str("wrap")) then Wrap
    else NoEdge
  }

  /** The factors and edge mode the callback goes on to render with. */
  datatype ScaleSetting = ScaleSetting(scaleX: real, scaleY: real, edgeMode: EdgeMode)

  /** What the branches on `arguments_.length` assign: `scaleX`, `scaleY` and the raw `edgeMode`. */
  datatype Choice = Choice(x: JsNumber, y: JsNumber, edge: Option<Param>)

  /** The dispatch exactly as written: a numeric second argument of two makes both factors the first. */
  function Dispatch(args: seq<Param>): Choice {
    if |args| == 2 then
      if ToNumber(args[1]) != NaN then Choice(ToNumber(args[0]), ToNumber(args[0]), Some(args[1]))
      else Choice(ToNumber(args[0]), ToNumber(args[1]), None)
    else if |args| == 3 then Choice(ToNumber(args[0]), ToNumber(args[1]), Some(args[2]))
    else if |args| == 1 then Choice(ToNumber(args[0]), ToNumber(args[0]), None)
    else Choice(Fin(1.0), Fin(1.0), None)
  }

  /** The checks after the dispatch: NaN, infinite or zero factors, then reciprocals that are 0 or both 1. */
  function Validate(c: Choice): Option<ScaleSetting> {
    if !c.x.Fin? || !c.y.Fin? || c.x.value == 0.0 || c.y.value == 0.0 then None
    else
      var cx := 1.0 / c.x.value;
      var cy := 1.0 / c.y.value;
      if cx == 0.0 || cy == 0.0 || (cx == 1.0 && cy == 1.0) then None
      else Some(ScaleSetting(c.x.value, c.y.value, NormalizeEdge(c.edge)))
  }

  /** The callback: the setting it renders with, or `None` for the empty string. */
  function ScaleArguments(args: seq<Param>): Option<ScaleSetting> {
    Validate(Dispatch(args))
  }

  /** A factor the callback accepts: finite and not zero. */
  predicate Usable(n: JsNumber) {
    n.Fin? && n.value != 0.0
  }

  /**
   * The callback renders exactly when both chosen factors are finite, not
   * zero and not both 1, and then with those factors and the normalised
   * edge mode.
   */
  lemma ValidateExactly(c: Choice)
    ensures Validate(c).Some? <==> Usable(c.x) && Usable(c.y) && !(c.x.value == 1.0 && c.y.value == 1.0)
    ensures Validate(c).Some? ==> Validate(c).value == ScaleSetting(c.x.value, c.y.value, NormalizeEdge(c.edge))
  {
    if Usable(c.x) && Usable(c.y) {
      ReciprocalOne(c.x.value);
      ReciprocalOne(c.y.value);
    }
  }

  lemma ReciprocalOne(v: real)
    requires v != 0.0
    ensures 1.0 / v != 0.0
    ensures 1.0 / v == 1.0 <==> v == 1.0
  {
    if 1.0 / v == 1.0 {
      assert v * (1.0 / v) == 1.0;
    }
  }

  /** One argument: both factors are that argument, and the edge mode is `none`. */
  lemma OneArgument(a: Param)
    ensures ScaleArguments([a]).Some?
            <==> Usable(ToNumber(a)) && ToNumber(a).value != 1.0
    ensures ScaleArguments([a]).Some?
            ==> ScaleArguments([a]).value == ScaleSetting(ToNumber(a).value, ToNumber(a).value, NoEdge)
  {
    ValidateExactly(Dispatch([a]));
  }

  /** Three arguments: the factors and the edge mode are taken in order. */
  lemma ThreeArguments(a: Param, b: Param, e: Param)
    ensures ScaleArguments([a, b, e]).Some?
            <==> Usable(ToNumber(a)) && Usable(ToNumber(b)) && !(ToNumber(a).value == 1.0 && ToNumber(b).value == 1.0)
    ensures ScaleArguments([a, b, e]).Some?
            ==> ScaleArguments([a, b, e]).value == ScaleSetting(ToNumber(a).value, ToNumber(b).value, NormalizeEdge(Some(e)))
  {
    ValidateExactly(Dispatch([a, b, e]));
  }

  /**
   * Two arguments, the second a number: both factors are the first, and
   * since a number is none of the edge-mode names the edge mode is `none`.
   */
  lemma TwoArgumentsNumeric(a: Param, b: Param)
    requires b.Num?
    ensures ScaleArguments([a, b]).Some?
            <==> Usable(ToNumber(a)) && ToNumber(a).value != 1.0
    ensures ScaleArguments([a, b]).Some?
            ==> ScaleArguments([a, b]).value == ScaleSetting(ToNumber(a).value, ToNumber(a).value, NoEdge)
  {
    ValidateExactly(Dispatch([a, b]));
  }

  /** Two arguments, the second a string: the second factor is NaN, so the output is always empty. */
  lemma TwoArgumentsString(a: Param, b: Param)
    requires b.Str?
    ensures ScaleArguments([a, b]) == None
  {
  }

  /** No argument, or four or more: both factors stay 1, so the output is empty. */
  lemma OtherArity(args: seq<Param>)
    requires |args| == 0 || |args| >= 4
    ensures ScaleArguments(args) == None
  {
    assert Dispatch(args) == Choice(Fin(1.0), Fin(1.0), None);
  }

  /**
   * The two-argument combinations the effect's documentation lists:
   * `(scale, edgeMode)` when the second argument is not a number and
   * `(scaleX, scaleY)` when it is.
   */
  function DispatchIntended(args: seq<Param>): Choice {
    if |args| == 2 then
      if ToNumber(args[1]) == NaN then Choice(ToNumber(args[0]), ToNumber(args[0]), Some(args[1]))
      else Choice(ToNumber(args[0]), ToNumber(args[1]), None)
    else Dispatch(args)
  }

  function ScaleIntended(args: seq<Param>): Option<ScaleSetting> {
    Validate(DispatchIntended(args))
  }

  /** With the documented dispatch, `(scale, edgeMode)` scales both ways and keeps a known edge mode. */
  lemma IntendedScaleAndEdge(a: Param, mode: string)
    ensures ScaleIntended([a, Str(mode)]).Some? <==> Usable(ToNumber(a)) && ToNumber(a).value != 1.0
    ensures ScaleIntended([a, Str(mode)]).Some?
            ==> ScaleIntended([a, Str(mode)]).value == ScaleSetting(ToNumber(a).value, ToNumber(a).value, NormalizeEdge(Some(Str(mode))))
  {
    ValidateExactly(DispatchIntended([a, Str(mode)]));
  }

  /** With the documented dispatch, `(scaleX, scaleY)` takes both factors in order. */
  lemma IntendedTwoFactors(a: Param, b: Param)
    requires b.Num?
    ensures ScaleIntended([a, b]).Some?
            <==> Usable(ToNumber(a)) && Usable(ToNumber(b)) && !(ToNumber(a).value == 1.0 && ToNumber(b).value == 1.0)
    ensures ScaleIntended([a, b]).Some?
            ==> ScaleIntended([a, b]).value == ScaleSetting(ToNumber(a).value, ToNumber(b).value, NoEdge)
  {
    ValidateExactly(DispatchIntended([a, b]));
  }

  /** Outside two arguments the documented dispatch is the written one. */
  lemma IntendedAgreesElsewhere(args: seq<Param>)
    requires |args| != 2
    ensures ScaleIntended(args) == ScaleArguments(args)
  {
  }

  /**
   * The test at scale.js line 14 is inverted: `scale(2, wrap)` renders
   * nothing although the documentation promises a factor of 2 with edge
   * mode `wrap`, and `scale(2, 3)` renders 2 by 2 instead of 2 by 3.
   */
  lemma InvertedNumericTest()
    ensures ScaleArguments([Num(Finite(2.0)), Str("wrap")]) == None
    ensures ScaleIntended([Num(Finite(2.0)), Str("wrap")]) == Some(ScaleSetting(2.0, 2.0, Wrap))
    ensures ScaleArguments([Num(Finite(2.0)), Num(Finite(3.0))]) == Some(ScaleSetting(2.0, 2.0, NoEdge))
    ensures ScaleIntended([Num(Finite(2.0)), Num(Finite(3.0))]) == Some(ScaleSetting(2.0, 3.0, NoEdge))
  {
    ValidateExactly(Dispatch([Num(Finite(2.0)), Num(Finite(3.0))]));
    ValidateExactly(DispatchIntended([Num(Finite(2.0)), Num(Finite(3.0))]));
    ValidateExactly(DispatchIntended([Num(Finite(2.0)), Str("wrap")]));
  }
}
