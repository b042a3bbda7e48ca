/**
 * The contract description a row is built from, the values it passes to the
 * contract call and the values it gets back.
 */
module Abi {
  import opened Wrappers
  import Decimal

  /** A parameter type as the row tells them apart: "uint256", or any other type with its base type name. */
  datatype ParamType = Uint256 | Other(baseType: string)

  /** One declared input or output of a contract function. */
  datatype Param = Param(name: string, kind: ParamType)

  /** A function fragment of the contract's interface. */
  datatype FunctionDescriptor = FunctionDescriptor(
    name: string,
    inputs: seq<Param>,
    outputs: seq<Param>,
    payable: bool)

  /** A coerced call argument: entered text, a boolean, or the {value: wei} object that attaches ether. */
  datatype Arg = Str(text: string) | Bool(flag: bool) | Ether(wei: int)

  /** A decoded element of an array result: a BigNumber, a string (addresses included) or a boolean. */
  datatype Returned = Num(n: int) | Text(text: string) | Flag(flag: bool)

  /** How the contract call settles: an array of decoded values, any other value, or a thrown error. */
  datatype CallOutcome = ArrayResult(items: seq<Returned>) | NonArrayResult | Threw

  /** The synthetic slot a payable function gets for the ether to send. */
  const SendEther: Param := Param("sendEther", Uint256)

  /** The `baseType` the output labels show. */
  function BaseType(t: ParamType): string
  {
    match t
    case Uint256 => "uint256"
    case Other(b) => b
  }

  /** `item.toString()` for a decoded value. */
  function Show(v: Returned): (r: string)
    ensures v.Num? ==> Decimal.ParseInt(r) == Some(v.n)
    ensures v.Text? ==> r == v.text
    ensures v.Flag? ==> (r == "true" <==> v.flag) && (r == "false" <==> !v.flag)
  {
    match v
    case Num(n) =>
      Decimal.IntToStringRoundTrip(n);
      Decimal.IntToString(n)
    case Text(t) => t
    case Flag(b) => if b then "true" else "false"
  }
}
