/**
 * One row of the contract page: the text entered for each parameter slot of
 * one contract function, the slots the row renders, and the outputs it shows.
 */
module Row {
  import opened Wrappers
  import opened Abi
  import opened Invocation
  import Units

  /** The form a row starts with: one empty text per declared input, none for the sendEther slot. */
  function InitialForm(entry: FunctionDescriptor): (form: seq<string>)
    ensures |form| == |entry.inputs|
    ensures forall k :: 0 <= k < |form| ==> form[k] == ""
  {
    seq(|entry.inputs|, _ => "")
  }

  /** The effect's choice of override: the sendEther slot for a payable function, none otherwise. */
  function OverrideFor(payable: bool): (o: Option<Param>)
    ensures o.Some? <==> payable
    ensures o.Some? ==> o.value == SendEther
  {
    if payable then Some(SendEther) else None
  }

  /** `.filter(Boolean)` on a list of slots: the absent override is dropped. */
  function Present(slots: seq<Option<Param>>): (r: seq<Param>)
    ensures |r| <= |slots|
    ensures forall p :: p in r <==> Some(p) in slots
  {
    if slots == [] then []
    else (if slots[0].Some? then [slots[0].value] else []) + Present(slots[1..])
  }

  lemma {:induction false} PresentAppend(a: seq<Option<Param>>, b: seq<Option<Param>>)
    ensures Present(a + b) == Present(a) + Present(b)
  {
    if a != [] {
      assert (a + b)[1..] == a[1..] + b;
      PresentAppend(a[1..], b);
    } else {
      assert a + b == b;
    }
  }

  lemma {:induction false} PresentAllSome(args: seq<Param>)
    ensures Present(seq(|args|, k requires 0 <= k < |args| => Some(args[k]))) == args
  {
    var wrapped := seq(|args|, k requires 0 <= k < |args| => Some(args[k]));
    if args != [] {
      assert wrapped[1..] == seq(|args| - 1, k requires 0 <= k < |args| - 1 => Some(args[1..][k]));
      PresentAllSome(args[1..]);
      assert args == [args[0]] + args[1..];
    }
  }

  /**
   * The slots the row renders, `[...args, override].filter(Boolean)`: the declared
   * inputs in order, then the sendEther slot when the override is set.
   */
  function RenderedSlots(args: seq<Param>, override: Option<Param>): (r: seq<Param>)
    ensures r == args + (if override.Some? then [override.value] else [])
  {
    var listed := seq(|args|, k requires 0 <= k < |args| => Some(args[k])) + [override];
    PresentAppend(seq(|args|, k requires 0 <= k < |args| => Some(args[k])), [override]);
    PresentAllSome(args);
    assert Present([override]) == (if override.Some? then [override.value] else []) + Present([]);
    Present(listed)
  }

  /**
   * The edit handler: a copy of the form with one slot set. Setting the slot just
   * past the end (the sendEther slot of a form that never had one) appends it.
   */
  function SetSlot(form: seq<string>, i: nat, text: string): (r: seq<string>)
    requires i <= |form|
    ensures |r| == if i < |form| then |form| else |form| + 1
    ensures r[i] == text
    ensures forall j :: 0 <= j < |form| && j != i ==> r[j] == form[j]
  {
    if i < |form| then form[i := text] else form + [text]
  }

  /** The label next to the displayed output at an index: the output's base type, or "" past the declared outputs. */
  function OutputLabel(declared: seq<Param>, index: nat): (l: string)
    ensures index >= |declared| ==> l == ""
    ensures index < |declared| && declared[index].kind == Uint256 ==> l == "uint256"
    ensures index < |declared| && declared[index].kind.Other? ==> l == declared[index].kind.baseType
  {
    if index < |declared| then BaseType(declared[index].kind) else ""
  }

  /** After an array result is displayed, every row of it has its declared output's label. */
  lemma ArrayResultLabels(declared: seq<Param>, items: seq<Returned>)
    requires FormatOutputs(declared, items).Ok?
    ensures forall k :: 0 <= k < |FormatOutputs(declared, items).value| ==>
              k < |declared| && OutputLabel(declared, k) == BaseType(declared[k].kind)
  {
  }

  /** The "success" shown for a non-array result is labelled with the first declared output's base type, if any. */
  lemma SuccessLabel(entry: FunctionDescriptor, form: seq<string>, call: seq<Arg> -> CallOutcome)
    requires call(Literals(form)).NonArrayResult?
    ensures Invoke(entry, false, form, call) == Ok(["success"])
    ensures OutputLabel(entry.outputs, 0) == if entry.outputs == [] then "" else BaseType(entry.outputs[0].kind)
  {
    InvokeNotPayable(entry, form, call);
  }

  /** The row's state: React's state hooks as fields, the descriptor it was last given as `entry`. */
  class FunctionRow {
    var entry: FunctionDescriptor      // props.contractEntry
    var inputs: seq<string>            // the entered texts
    var outputs: seq<string>           // the displayed results
    var args: seq<Param>               // the declared inputs, as the effect last set them
    var override: Option<Param>        // the sendEther slot, as the effect last set it

    /** The effect has run for the current descriptor. */
    ghost predicate Synced()
      reads this
    {
      args == entry.inputs && override == OverrideFor(entry.payable)
    }

    /** The form covers every declared input and at most the rendered slots. */
    ghost predicate FormFits()
      reads this
    {
      |entry.inputs| <= |inputs| <= |Slots()|
    }

    function Slots(): seq<Param>
      reads this
    {
      RenderedSlots(args, override)
    }

    /** Mounting: the initial form and no outputs, then the effect's first run. */
    constructor (e: FunctionDescriptor)
      ensures entry == e && inputs == InitialForm(e) && outputs == []
      ensures Synced() && FormFits()
      ensures Slots() == e.inputs + (if e.payable then [SendEther] else [])
    {
      entry := e;
      inputs := InitialForm(e);
      outputs := [];
      args := [];
      override := None;
      new;
      Sync();
    }

    /** The effect, run when the row gets a descriptor: it sets the slots; the form and the outputs stay as they are. */
    method Reconfigure(e: FunctionDescriptor)
      modifies this`entry, this`args, this`override
      ensures entry == e && Synced()
      ensures Slots() == e.inputs + (if e.payable then [SendEther] else [])
      ensures inputs == old(inputs) && outputs == old(outputs)
    {
      entry := e;
      Sync();
    }

    method Sync()
      modifies this`args, this`override
      ensures Synced()
      ensures Slots() == entry.inputs + (if entry.payable then [SendEther] else [])
      ensures inputs == old(inputs) && outputs == old(outputs) && entry == old(entry)
    {
      args := entry.inputs;
      if entry.payable {
        override := Some(SendEther);
      } else {
        override := None;
      }
    }

    /** Typing into the slot at index i. */
    method Edit(i: nat, text: string)
      requires i < |Slots()| && i <= |inputs|
      modifies this`inputs
      ensures inputs == SetSlot(old(inputs), i, text)
      ensures old(FormFits()) ==> FormFits()
    {
      var copy := inputs;
      if i < |copy| {
        copy := copy[i := text];
      } else {
        copy := copy + [text];
      }
      inputs := copy;
    }

    /**
     * Clicking the button: the outputs become what the invocation displays, and
     * after any failure they stay what they were.
     */
    method Click(call: seq<Arg> -> CallOutcome)
      modifies this`outputs
      ensures outputs == Displayed(old(outputs), Invoke(entry, override.Some?, inputs, call))
      ensures Invoke(entry, override.Some?, inputs, call).Err? ==> outputs == old(outputs)
    {
      var clean := Coerce(entry.inputs, inputs).value;
      if override.Some? {
        var lastIndex := |clean| - 1;
        if lastIndex < 0 {
          return;                                   // parseEther(undefined) throws
        }
        var wei := if clean[lastIndex].Str? then Units.ParseEther(clean[lastIndex].text) else None;
        if wei.None? {
          return;                                   // parseEther throws
        }
        clean := clean[lastIndex := Ether(wei.value)];
      }
      match call(clean) {
        case Threw =>                               // the call threw: logged only
        case NonArrayResult =>
          outputs := ["success"];
        case ArrayResult(items) =>
          var shown := FormatOutputs(entry.outputs, items);
          if shown.Ok? {
            outputs := shown.value;
          }
      }
    }
  }
}
