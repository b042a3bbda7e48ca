# FunctionRow, modelled in Dafny

The liquidity-pool front end renders one `FunctionRow` per function of a
contract's interface. A row keeps a text box for every declared parameter and,
for a payable function, one more box for the ether to send. It turns the entered
texts into call arguments and calls the contract. It then shows what came back:
amounts in ether, other values as text, or "success".

This project models that row and proves what it does:

- `wrappers.dfy` (`Wrappers`): `Option`, `Result` and the ways a click can fail.
- `decimal.dfy` (`Decimal`): digit strings and the integers they denote. This
  covers BigNumber's `toString` and its reading of a decimal string.
- `units.dfy` (`Units`): `parseEther` and `formatUnits(_, "ether")` as 18-decimal
  fixed point. Whatever `formatUnits` prints, `parseEther` reads back to the same
  amount of wei.
- `abi.dfy` (`Abi`): the function descriptor, parameter types, coerced arguments,
  returned values and the outcome of a call.
- `invocation.dfy` (`Invocation`): one click as values. The steps are coercion,
  the payable override, the call, and formatting the result. It also holds the
  lemmas about what reaches the call.
- `function_row.dfy` (`Row`): the row as a class. It has the state hooks as
  fields, the effect that sets the slots, the edit handler and the click handler.
  Beside it are functions for the rendered slots, the initial form and the
  output labels.
- `scenarios.dfy` (`Scenarios`): worked cases on concrete descriptors and texts.

The contract call is a parameter `call: seq<Arg> -> CallOutcome`. The outcome is
an array of decoded values, any other value, or a thrown error.

Four behaviours of the code are easy to misread, and the model keeps to the code
in each:

- **The form is never reset.** `setInputs` is called only by the edit handler
  (FunctionRow.tsx line 93); otherwise `inputs` has only `useState`'s initial value
  (line 12). The effect at lines 66-75 sets only `args` and `override`
  (`Row.FunctionRow.Reconfigure`).
- **The payable slot is not sized.** The initial form at line 11 has one entry per
  declared input only, while line 83 renders one slot more for a payable function.
  An untouched sendEther slot therefore has no entry. The override at lines 38-41
  then overwrites the last declared argument in place. The call still receives
  as many values as declared: the first n - 1 as entered, then
  `{value: parseEther(entry n - 1)}` in the last declared position. With no
  declared inputs, the override fails.
- **Coercion never scales.** The scaling branch at line 31 needs an index past the
  declared inputs whose declared type is `uint256`. Past the declared inputs there
  is no declared type, so the branch never fires. Only the override's `parseEther`
  at line 40 converts an amount.
- **Outputs stay on failure.** The catch at lines 61-63 only logs. `setOutputs` is
  reached only on success (lines 49 and 54), so after a failure the outputs keep
  their previous value.

## Model

| member | source | states |
|---|---|---|
| Invocation.Literal | frontend/src/common/FunctionRow.tsx:24-34 | an entry becomes a boolean exactly when it is "true" or "false", with the matching value; any other text is passed unchanged |
| Invocation.Literals | frontend/src/common/FunctionRow.tsx:22-35 | the literal arguments of a form have the form's length, and each is the literal meaning of the entry at the same index |
| Invocation.CoerceItem | frontend/src/common/FunctionRow.tsx:24-34 | the per-entry coercion, written branch for branch with the uint256 scaling branch, always gives the entry's literal meaning: the scaling branch is unreachable |
| Invocation.CoerceFrom | frontend/src/common/FunctionRow.tsx:22-35 | mapping the coercion over the entries from an index on never fails; each result is the literal meaning of its entry, in order and with nothing dropped |
| Invocation.Coerce | frontend/src/common/FunctionRow.tsx:22-35 | coercing a whole form never fails and gives exactly the literal arguments; a declared uint256 argument reaches the call unscaled |
| Invocation.ApplyOverride | frontend/src/common/FunctionRow.tsx:37-43 | without the override the arguments pass as they are; with it, the step succeeds iff the list is non-empty and its last element is text that parseEther accepts; then the length and every earlier element are unchanged and the last becomes {value: wei}; every failure is an invalid decimal |
| Invocation.BooleansAreNotEther | frontend/src/common/FunctionRow.tsx:37-41 | neither boolean literal is an amount parseEther accepts |
| Invocation.OverrideLiterals | frontend/src/common/FunctionRow.tsx:37-43 | on a non-empty form, the override fails iff the last entry is not a decimal amount; otherwise the call receives the literals of the earlier entries followed by {value: the last entry's wei} |
| Invocation.FormatItem | frontend/src/common/FunctionRow.tsx:50 | a missing output descriptor is a failure; a non-uint256 output is shown with toString; a uint256 output is formatUnits of its toString, so a returned number shows as its amount in ether |
| Invocation.FormatFrom | frontend/src/common/FunctionRow.tsx:49-51 | the mapped elements from an index on succeed iff every element formats; each is the formatted element at the same index |
| Invocation.FormatOutputs | frontend/src/common/FunctionRow.tsx:47-52 | an array result with more elements than declared outputs fails; otherwise the shown strings have the result's length; element k is toString for a non-uint256 output and formatUnits for a uint256 one; a shown uint256 amount reads back through parseEther as the returned wei |
| Invocation.Settle | frontend/src/common/FunctionRow.tsx:44-59 | a call that throws is a failure; a non-array result shows exactly ["success"]; an array result shows one string per element and never more than the declared outputs; settling never fails as an invalid decimal, and an array result never fails as a call failure |
| Invocation.Invoke | frontend/src/common/FunctionRow.tsx:21-55 | one click fails as an invalid decimal exactly when the payable step rejects the literal arguments, so coercion never fails; otherwise the result is the settled outcome of calling with the overridden literals, and it is a call failure exactly when the call throws |
| Invocation.Displayed | frontend/src/common/FunctionRow.tsx:49-63 | after a click the shown outputs are the new ones when it succeeded and the previous ones when it failed |
| Invocation.FailuresKeepOutputs | frontend/src/common/FunctionRow.tsx:56-63 | a series of clicks that all fail leaves the outputs shown before them |
| Invocation.LastSuccessShown | frontend/src/common/FunctionRow.tsx:49-63 | after a series of clicks the row shows what the last successful click produced, whatever failures followed it |
| Invocation.InvokeNotPayable | frontend/src/common/FunctionRow.tsx:22-45 | without the override the call receives the literal meaning of every entry, nothing scaled and nothing dropped |
| Invocation.InvokePayable | frontend/src/common/FunctionRow.tsx:37-45 | with the override, an empty form fails and so does a last entry that is not a decimal amount; otherwise the call receives the earlier entries' literals followed by {value: parseEther(last entry)} |
| Invocation.InvokePayableSlotFilled | frontend/src/common/FunctionRow.tsx:37-45 | when the sendEther slot was filled in, the call receives n + 1 values: every declared argument as entered, then {value: the slot's wei} |
| Invocation.InvokePayableSlotUntouched | frontend/src/common/FunctionRow.tsx:37-45 | when the form is only as long as the declared inputs, the call receives exactly n values: the first n - 1 entries as entered, then {value: parseEther(entry n - 1)} in the last declared position |
| Invocation.InvokePayableNoInputsUntouched | frontend/src/common/FunctionRow.tsx:37-43 | a payable function without declared inputs fails on every click while its sendEther slot is untouched |
| Row.InitialForm | frontend/src/common/FunctionRow.tsx:11 | the initial form has one empty text per declared input and no entry for the sendEther slot |
| Row.OverrideFor | frontend/src/common/FunctionRow.tsx:69-73 | the override is set iff the function is payable, and then it is the sendEther uint256 slot |
| Row.RenderedSlots | frontend/src/common/FunctionRow.tsx:83 | filtering [...args, override] gives the declared inputs in order, followed by the sendEther slot exactly when the override is set |
| Row.OutputLabel | frontend/src/common/FunctionRow.tsx:105 | the label at an index is "" past the declared outputs, "uint256" for a uint256 output and the base type name for any other output |
| Row.SetSlot | frontend/src/common/FunctionRow.tsx:90-94 | an edit sets slot i to the new text and leaves every other entry unchanged; the length is unchanged for i inside the form, and an edit just past the end appends one entry |
| Row.ArrayResultLabels | frontend/src/common/FunctionRow.tsx:103-105 | every row of a displayed array result has a declared output and is labelled with its base type |
| Row.SuccessLabel | frontend/src/common/FunctionRow.tsx:103-105 | a non-array result shows ["success"], labelled with the first declared output's base type, or "" when there is none |
| Row.FunctionRow.constructor | frontend/src/common/FunctionRow.tsx:11-16 | a mounted row has the initial form and no outputs; after the first effect its slots are the declared inputs plus sendEther iff payable |
| Row.FunctionRow.Reconfigure | frontend/src/common/FunctionRow.tsx:66-75 | a new descriptor resets the slots to its inputs plus sendEther iff payable; the form and the outputs are left as they were |
| Row.FunctionRow.Sync | frontend/src/common/FunctionRow.tsx:67-73 | the effect sets args to the declared inputs and the override from the payable flag, and changes nothing else |
| Row.FunctionRow.Edit | frontend/src/common/FunctionRow.tsx:90-94 | typing into slot i makes the form the copy with slot i set; a form that covered the declared inputs and fitted the rendered slots still does |
| Row.FunctionRow.Click | frontend/src/common/FunctionRow.tsx:18-64 | the in-place click handler leaves the outputs that the invocation displays; after any failure of coercion, parseEther, the call or formatting, the outputs are exactly what they were before |
| Abi.Show | frontend/src/common/FunctionRow.tsx:50 | toString of a returned number reads back as that number; a string is shown as itself and a boolean as "true" or "false" |
| Decimal.IntToStringRoundTrip | frontend/src/common/FunctionRow.tsx:50 | the toString text of a returned number reads back as the same integer, so formatUnits never fails on a returned number |
| Units.FormatUnitsEther | frontend/src/common/FunctionRow.tsx:50 | formatUnits succeeds iff its text is a decimal integer, and then parseEther reads the printed ether text back as exactly that integer's wei |
| Units.ParseEther | frontend/src/common/FunctionRow.tsx:40 | parseEther yields a negative amount only for text that starts with a minus sign |
| Units.ParseEtherAccepts | frontend/src/common/FunctionRow.tsx:40 | parseEther accepts only an optional minus sign followed by digits with at most one dot, and never a lone dot |
| Units.FractionRoundTrip | frontend/src/common/FunctionRow.tsx:50 | the fraction printed for a remainder below one ether is at most 18 digits, and it reads back as that remainder |
| Units.ParseFormatRoundTrip | frontend/src/common/FunctionRow.tsx:50 | parseEther reads whatever formatUnits(_, "ether") prints back to the same amount of wei, negative amounts included |
| Units.ParseEtherWhole | frontend/src/common/FunctionRow.tsx:40 | a whole number of ether typed without a dot is attached as that number times 10^18 wei |
| Scenarios.ParseOneAndAHalf | frontend/src/common/FunctionRow.tsx:40 | "1.5" is attached as 1.5 * 10^18 wei |
| Scenarios.FormatTwoEther | frontend/src/common/FunctionRow.tsx:50 | 2 * 10^18 wei is shown as "2.0" |
| Scenarios.FormatBalanceAndAddress | frontend/src/common/FunctionRow.tsx:47-51 | a (uint256, address) result of (2 ether, "0xABC") is shown as ["2.0", "0xABC"] |
| Scenarios.TransferSendsAmountUnscaled | frontend/src/common/FunctionRow.tsx:22-35 | transfer(address, uint256) starts with two empty entries, and "5" is sent as the text "5", not as 5 ether |
| Scenarios.PurchaseAttachesEther | frontend/src/common/FunctionRow.tsx:37-54 | a payable purchase() with "2" typed into its sendEther slot calls with {value: 2 * 10^18} and shows ["success"] |
| Scenarios.FailedClickKeepsOutputs | frontend/src/common/FunctionRow.tsx:44-63 | a click whose call throws leaves the previous click's outputs on display |

## Left out

- `parseEther` and `formatUnits` belong to the ethers library, which is not part of this model. They are modelled on ethers v5's fixed-point conversion with 18 decimals. BigNumber's reading of hexadecimal strings is not modelled; a returned number is read back only from its decimal `toString`.
- Row.FunctionRow.Edit: requires `i <= |inputs|`. Setting an index beyond the end of a JavaScript array leaves holes, and holes are not modelled. Only the sendEther slot of an untouched payable form sits past the end, and it sits just past it.
- React's hook timing is not modelled. The state setters are asynchronous, and the first render happens before the effect. The model runs the effect when the row is created and when the descriptor changes (`Row.FunctionRow.Reconfigure`).
- The `await` on the contract call, concurrent rows and the order in which their updates land are not modelled. A click runs to completion.
- `console.log` output and the JSX markup, apart from the slot list and the output labels, are not modelled.
- A nested array or tuple element of a result is not modelled. Elements are numbers, text or booleans.
- Null or undefined elements of a result are not modelled. Their `toString` would throw.
- How the contract binding treats the `{value: wei}` object is not modelled. The model states only the list of values passed to the call. When the sendEther slot is untouched, that object sits in the position of the last declared argument, and the model does not say whether the binding reads it as an argument or as transaction overrides.
- Which return values ethers delivers as an array is left to the `call` parameter.
- Row.FunctionRow.Click: the outputs of a click are the string array itself. React's re-render, and its keys built from index and text, are not modelled.
- The rest of the front end is not part of this model: the admin view, the app shell and wallet connection, the menu and the contract box. The end-to-end test is not part of it either. These are network I/O, wallet calls and rendering.
