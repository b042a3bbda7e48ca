/**
 * What one click of a row's button does, as values: the entered texts are
 * coerced into call arguments, a payable function's last argument becomes the
 * ether to send, the contract is called, and the result is turned into the
 * strings the row displays.
 */
module Invocation {
  import opened Wrappers
  import opened Abi
  import opened Units
  import Decimal

  /** What an entered text means as an argument: the two boolean literals, or the text itself. */
  function Literal(item: string): (a: Arg)
    ensures a.Bool? <==> item == "true" || item == "false"
    ensures a.Bool? ==> a.flag == (item == "true")
    ensures a.Str? ==> a.text == item
  {
    if item == "true" then Bool(true) else if item == "false" then Bool(false) else Str(item)
  }

  /** The literal meaning of every entry, in order. */
  function Literals(form: seq<string>): (r: seq<Arg>)
    ensures |r| == |form|
    ensures forall k :: 0 <= k < |form| ==> r[k] == Literal(form[k])
  {
    seq(|form|, k requires 0 <= k < |form| => Literal(form[k]))
  }

  /** `inputs[index]?.type`: the declared type at an index, or undefined past the declared inputs. */
  function DeclaredType(declared: seq<Param>, index: nat): Option<ParamType>
  {
    if index < |declared| then Some(declared[index].kind) else None
  }

  /**
   * The coercion of the entry at one index, branch for branch. The third branch
   * asks for an index past the declared inputs whose declared type is uint256;
   * past the declared inputs there is no declared type, so it never fires and
   * every entry means its literal.
   */
  function CoerceItem(declared: seq<Param>, index: nat, item: string): (r: Result<Arg>)
    ensures r == Ok(Literal(item))
  {
    if item == "true" then Ok(Bool(true))
    else if item == "false" then Ok(Bool(false))
    else if index > |declared| - 1 && DeclaredType(declared, index) == Some(Uint256) then
      match ParseEther(item)
      case Some(wei) => Ok(Str(Decimal.IntToString(wei)))
      case None => Err(InvalidDecimal)
    else Ok(Str(item))
  }

  /** The map over the entries from `start` on; the first entry that throws ends it. */
  function CoerceFrom(declared: seq<Param>, form: seq<string>, start: nat): (r: Result<seq<Arg>>)
    requires start <= |form|
    decreases |form| - start
    ensures r.Ok? && |r.value| == |form| - start
    ensures forall k :: start <= k < |form| ==> r.value[k - start] == Literal(form[k])
  {
    if start == |form| then Ok([])
    else
      match CoerceItem(declared, start, form[start])
      case Err(f) => Err(f)
      case Ok(head) =>
        match CoerceFrom(declared, form, start + 1)
        case Err(f) => Err(f)
        case Ok(tail) => Ok([head] + tail)
  }

  /**
   * The coerced arguments of a whole form: never a failure, the same length and
   * order as the form, "true" and "false" as booleans and every other text as is;
   * in particular a declared uint256 argument reaches the call unscaled.
   */
  function Coerce(declared: seq<Param>, form: seq<string>): (r: Result<seq<Arg>>)
    ensures r == Ok(Literals(form))
  {
    var r := CoerceFrom(declared, form, 0);
    assert r.value == Literals(form);
    r
  }

  /**
   * The payable step: with the override set, the last argument is replaced by
   * {value: parseEther(last)}. With no arguments the index is -1 and parseEther
   * gets undefined; a boolean is not a string either; both throw.
   */
  function ApplyOverride(args: seq<Arg>, overriding: bool): (r: Result<seq<Arg>>)
    ensures !overriding ==> r == Ok(args)
    ensures overriding ==>
              (r.Ok? <==> |args| >= 1 && args[|args| - 1].Str? && ParseEther(args[|args| - 1].text).Some?)
    ensures overriding && r.Ok? ==>
              |r.value| == |args|
              && r.value[..|args| - 1] == args[..|args| - 1]
              && r.value[|args| - 1] == Ether(ParseEther(args[|args| - 1].text).value)
    ensures r.Err? ==> r.failure == InvalidDecimal
  {
    if !overriding then Ok(args)
    else if |args| == 0 then Err(InvalidDecimal)
    else
      var last := |args| - 1;
      match args[last]
      case Str(text) =>
        (match ParseEther(text)
         case Some(wei) =>
           var sent := args[last := Ether(wei)];
           assert sent[..last] == args[..last];
           Ok(sent)
         case None => Err(InvalidDecimal))
      case _ => Err(InvalidDecimal)
  }

  /**
   * One element of an array result: reading the type of a missing output
   * descriptor throws; a uint256 output goes through formatUnits(item.toString(),
   * "ether"); any other output is shown with toString.
   */
  function FormatItem(declared: seq<Param>, index: nat, item: Returned): (r: Result<string>)
    ensures index >= |declared| ==> r == Err(MissingDescriptor)
    ensures r.Err? ==> r.failure == MissingDescriptor || r.failure == InvalidInteger
    ensures index < |declared| && declared[index].kind != Uint256 ==> r == Ok(Show(item))
    ensures index < |declared| && declared[index].kind == Uint256 ==>
              r == (match FormatUnitsEther(Show(item)) case Some(text) => Ok(text) case None => Err(InvalidInteger))
    ensures index < |declared| && declared[index].kind == Uint256 && item.Num? ==> r == Ok(FormatEther(item.n))
  {
    if index >= |declared| then Err(MissingDescriptor)
    else if declared[index].kind == Uint256 then
      if item.Num? then
        Decimal.IntToStringRoundTrip(item.n);
        Ok(FormatEther(item.n))
      else
        match FormatUnitsEther(Show(item))
        case Some(text) => Ok(text)
        case None => Err(InvalidInteger)
    else Ok(Show(item))
  }

  /** The map over the elements from `start` on; the first element that throws ends it. */
  function FormatFrom(declared: seq<Param>, items: seq<Returned>, start: nat): (r: Result<seq<string>>)
    requires start <= |items|
    decreases |items| - start
    ensures r.Ok? <==> forall k :: start <= k < |items| ==> FormatItem(declared, k, items[k]).Ok?
    ensures r.Ok? ==> |r.value| == |items| - start
    ensures r.Ok? ==> forall k :: start <= k < |items| ==> r.value[k - start] == FormatItem(declared, k, items[k]).value
    ensures r.Err? ==> r.failure == MissingDescriptor || r.failure == InvalidInteger
  {
    if start == |items| then Ok([])
    else
      match FormatItem(declared, start, items[start])
      case Err(f) => Err(f)
      case Ok(head) =>
        match FormatFrom(declared, items, start + 1)
        case Err(f) => Err(f)
        case Ok(tail) => Ok([head] + tail)
  }

  /**
   * The strings shown for an array result: one per element, in order, as long as
   * every element has an output descriptor and every uint256 element reads as an
   * integer; a displayed uint256 amount reads back, through parseEther, as the
   * returned number of wei.
   */
  function FormatOutputs(declared: seq<Param>, items: seq<Returned>): (r: Result<seq<string>>)
    ensures |items| > |declared| ==> r.Err?
    ensures r.Ok? <==> forall k :: 0 <= k < |items| ==> FormatItem(declared, k, items[k]).Ok?
    ensures r.Ok? ==> |r.value| == |items|
    ensures r.Err? ==> r.failure == MissingDescriptor || r.failure == InvalidInteger
    ensures r.Ok? ==> forall k :: 0 <= k < |items| && declared[k].kind != Uint256 ==> r.value[k] == Show(items[k])
    ensures r.Ok? ==> forall k :: 0 <= k < |items| && declared[k].kind == Uint256 ==>
              FormatUnitsEther(Show(items[k])) == Some(r.value[k])
    ensures r.Ok? ==> forall k :: 0 <= k < |items| && declared[k].kind == Uint256 && items[k].Num? ==>
              ParseEther(r.value[k]) == Some(items[k].n)
  {
    assert |items| > |declared| ==> FormatItem(declared, |declared|, items[|declared|]).Err?;
    assert forall wei :: ParseEther(FormatEther(wei)) == Some(wei) by {
      forall wei ensures ParseEther(FormatEther(wei)) == Some(wei) {
        ParseFormatRoundTrip(wei);
      }
    }
    FormatFrom(declared, items, 0)
  }

  /** What the call's outcome puts on display: its formatted array, "success", or the failure that is logged. */
  function Settle(declaredOutputs: seq<Param>, outcome: CallOutcome): (r: Result<seq<string>>)
    ensures outcome.Threw? ==> r == Err(CallFailed)
    ensures outcome.NonArrayResult? ==> r == Ok(["success"])
    ensures outcome.ArrayResult? && r.Ok? ==> |r.value| == |outcome.items| <= |declaredOutputs|
    ensures outcome.ArrayResult? ==> r.Err? ==> r.failure != CallFailed
    ensures r.Err? ==> r.failure != InvalidDecimal
  {
    match outcome
    case ArrayResult(items) => FormatOutputs(declaredOutputs, items)
    case NonArrayResult => Ok(["success"])
    case Threw => Err(CallFailed)
  }

  /**
   * One click: coerce, apply the override, call, and settle; any failure on the way
   * is the result. Since coercion never fails, a click fails as an invalid decimal
   * exactly when the payable step rejects the literal arguments, and the call
   * failing is exactly the call throwing.
   */
  function Invoke(entry: FunctionDescriptor, overriding: bool, form: seq<string>, call: seq<Arg> -> CallOutcome)
    : (r: Result<seq<string>>)
    ensures r == Err(InvalidDecimal) <==> ApplyOverride(Literals(form), overriding).Err?
    ensures ApplyOverride(Literals(form), overriding).Ok? ==>
              var sent := ApplyOverride(Literals(form), overriding).value;
              r == Settle(entry.outputs, call(sent))
              && (r == Err(CallFailed) <==> call(sent).Threw?)
  {
    match Coerce(entry.inputs, form)
    case Err(f) => Err(f)
    case Ok(clean) =>
      match ApplyOverride(clean, overriding)
      case Err(f) => Err(f)
      case Ok(sent) => Settle(entry.outputs, call(sent))
  }

  /** The outputs shown after a click: the new ones on success, the previous ones after any failure. */
  function Displayed(previous: seq<string>, r: Result<seq<string>>): (d: seq<string>)
    ensures r.Ok? ==> d == r.value
    ensures r.Err? ==> d == previous
  {
    if r.Ok? then r.value else previous
  }

  /** The outputs shown after a series of clicks with the given results, starting from `previous`. */
  function ShownAfter(previous: seq<string>, clicks: seq<Result<seq<string>>>): seq<string>
  {
    if clicks == [] then previous
    else Displayed(ShownAfter(previous, clicks[..|clicks| - 1]), clicks[|clicks| - 1])
  }

  /** Clicks that all fail leave the outputs the row showed before them. */
  lemma {:induction false} FailuresKeepOutputs(previous: seq<string>, clicks: seq<Result<seq<string>>>)
    requires forall k :: 0 <= k < |clicks| ==> clicks[k].Err?
    ensures ShownAfter(previous, clicks) == previous
  {
    if clicks != [] {
      var init := clicks[..|clicks| - 1];
      assert forall k :: 0 <= k < |init| ==> init[k] == clicks[k];
      FailuresKeepOutputs(previous, init);
    }
  }

  /** After a series of clicks the row shows what the last successful click produced. */
  lemma {:induction false} LastSuccessShown(previous: seq<string>, clicks: seq<Result<seq<string>>>, k: nat)
    requires k < |clicks| && clicks[k].Ok?
    requires forall j :: k < j < |clicks| ==> clicks[j].Err?
    ensures ShownAfter(previous, clicks) == clicks[k].value
  {
    var n := |clicks| - 1;
    if k < n {
      var init := clicks[..n];
      assert clicks[n].Err?;
      assert forall j :: k <= j < |init| ==> init[j] == clicks[j];
      LastSuccessShown(previous, init, k);
    }
  }

  /** Neither boolean literal is a decimal amount. */
  lemma BooleansAreNotEther()
    ensures ParseEther("true") == None && ParseEther("false") == None
  {
    assert !Decimal.IsDigit("true"[0]) && "true"[0] != '.';
    assert !Decimal.IsDigit("false"[0]) && "false"[0] != '.';
  }

  /** Without the override the call receives the literal meaning of every entry: nothing scaled, nothing dropped. */
  lemma InvokeNotPayable(entry: FunctionDescriptor, form: seq<string>, call: seq<Arg> -> CallOutcome)
    ensures Invoke(entry, false, form, call) == Settle(entry.outputs, call(Literals(form)))
  {
  }

  /** The payable step on the literal arguments of a non-empty form. */
  lemma OverrideLiterals(form: seq<string>)
    requires |form| >= 1
    ensures ParseEther(form[|form| - 1]).None? ==> ApplyOverride(Literals(form), true) == Err(InvalidDecimal)
    ensures ParseEther(form[|form| - 1]).Some? ==>
              ApplyOverride(Literals(form), true)
                == Ok(Literals(form[..|form| - 1]) + [Ether(ParseEther(form[|form| - 1]).value)])
  {
    var n := |form| - 1;
    var clean := Literals(form);
    assert clean[n] == Literal(form[n]);
    match ParseEther(form[n])
    case Some(wei) =>
      BooleansAreNotEther();
      assert clean[n] == Str(form[n]);
      var r := ApplyOverride(clean, true);
      var want := Literals(form[..n]) + [Ether(wei)];
      assert r.Ok?;
      assert |r.value| == |want|;
      forall k | 0 <= k < |want|
        ensures r.value[k] == want[k]
      {
        if k < n {
          assert r.value[k] == r.value[..n][k];
        }
      }
      assert r.value == want;
    case None =>
      assert ApplyOverride(clean, true).Err?;
  }

  /**
   * With the override, the last entry of the form, whichever slot it came from,
   * is replaced in place by {value: parseEther(entry)}: the call receives as many
   * values as the form has entries, the earlier ones as entered. An empty form, or
   * a last entry that is not a decimal amount, is a failure.
   */
  lemma InvokePayable(entry: FunctionDescriptor, form: seq<string>, call: seq<Arg> -> CallOutcome)
    ensures |form| == 0 ==> Invoke(entry, true, form, call) == Err(InvalidDecimal)
    ensures |form| >= 1 && ParseEther(form[|form| - 1]).None? ==> Invoke(entry, true, form, call) == Err(InvalidDecimal)
    ensures |form| >= 1 && ParseEther(form[|form| - 1]).Some? ==>
              Invoke(entry, true, form, call)
                == Settle(entry.outputs,
                          call(Literals(form[..|form| - 1]) + [Ether(ParseEther(form[|form| - 1]).value)]))
  {
    if |form| >= 1 {
      OverrideLiterals(form);
    }
  }

  /**
   * A payable form whose sendEther slot was filled in: the call receives one value
   * more than declared, every declared argument as entered, then the slot's amount
   * as {value: wei}.
   */
  lemma {:induction false} InvokePayableSlotFilled(entry: FunctionDescriptor, form: seq<string>, call: seq<Arg> -> CallOutcome)
    ensures |form| == |entry.inputs| + 1 && ParseEther(form[|entry.inputs|]).Some? ==>
              var sent := Literals(form[..|entry.inputs|]) + [Ether(ParseEther(form[|entry.inputs|]).value)];
              Invoke(entry, true, form, call) == Settle(entry.outputs, call(sent))
              && |sent| == |entry.inputs| + 1
              && forall k :: 0 <= k < |entry.inputs| ==> sent[k] == Literal(form[k])
  {
    InvokePayable(entry, form, call);
  }

  /**
   * A payable form whose sendEther slot was never touched is only as long as the
   * declared inputs. The call receives exactly as many values as declared: the
   * first n - 1 entries as entered, then {value: parseEther(entry n - 1)} in the
   * position of the last declared argument.
   */
  lemma {:induction false} InvokePayableSlotUntouched(entry: FunctionDescriptor, form: seq<string>, call: seq<Arg> -> CallOutcome)
    ensures |form| == |entry.inputs| >= 1 && ParseEther(form[|form| - 1]).Some? ==>
              var sent := Literals(form[..|form| - 1]) + [Ether(ParseEther(form[|form| - 1]).value)];
              Invoke(entry, true, form, call) == Settle(entry.outputs, call(sent))
              && |sent| == |entry.inputs|
              && forall k :: 0 <= k < |entry.inputs| - 1 ==> sent[k] == Literal(form[k])
  {
    InvokePayable(entry, form, call);
  }

  /** A payable function without declared inputs fails on every click until its sendEther slot is filled in. */
  lemma {:induction false} InvokePayableNoInputsUntouched(entry: FunctionDescriptor, call: seq<Arg> -> CallOutcome)
    ensures Invoke(entry, true, [], call) == Err(InvalidDecimal)
  {
    InvokePayable(entry, [], call);
  }
}
