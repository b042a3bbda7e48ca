/** Worked cases of a row, each a fact about concrete descriptors and texts. */
module Scenarios {
  import opened Wrappers
  import opened Abi
  import opened Units
  import opened Invocation
  import opened Row
  import Decimal

  const ONE_ETHER: int := 1000000000000000000

  lemma WeiPerEtherValue()
    ensures WeiPerEther() == ONE_ETHER
  {
    assert Decimal.Pow10(6) == 1000000;
    assert Decimal.Pow10(12) == 1000000 * Decimal.Pow10(6);
    assert Decimal.Pow10(18) == 1000000 * Decimal.Pow10(12);
  }

  /** "1.5" ether is 1.5 * 10^18 wei. */
  lemma ParseOneAndAHalf()
    ensures ParseEther("1.5") == Some(1500000000000000000)
  {
    assert Decimal.AllDigits("1") && Decimal.AllDigits("5");
    FiveTenths();
    ParseUnsignedPointed("1", "5");
    assert "1" + "." + "5" == "1.5";
    assert Decimal.Value("1") == 1;
    WeiPerEtherValue();
    assert PointedValue("1", "5") == 1500000000000000000;
  }

  /** The fraction "5" is half an ether. */
  lemma FiveTenths()
    ensures Decimal.AllDigits("5") && TrimTrailingZeros("5") == "5"
    ensures FractionWei("5") == 500000000000000000
  {
    assert TrimTrailingZeros("5") == "5";
    assert Decimal.Value("5") == 5;
    WeiPerEtherValue();
    assert Decimal.Pow10(17) * 10 == ONE_ETHER;
  }

  /** A string of zeros has nothing left once its trailing zeros are dropped. */
  lemma TrimZeros(k: nat)
    ensures TrimTrailingZeros(Decimal.Zeros(k)) == []
  {
    var z := Decimal.Zeros(k);
    var t := TrimTrailingZeros(z);
    assert t == z[..|t|];
  }

  /** Two ether is shown as "2.0". */
  lemma FormatTwoEther()
    ensures FormatEther(2 * ONE_ETHER) == "2.0"
  {
    WeiPerEtherValue();
    assert WholeEther(2 * ONE_ETHER) == 2;
    assert LeftoverWei(2 * ONE_ETHER) == 0;
    assert Decimal.NatToString(2) == "2";
    assert Decimal.NatToString(0) == "0";
    assert FractionDigits(0) == Decimal.Zeros(18);
    TrimZeros(18);
  }

  /** A uint256 output and an address output: the amount in ether, the address as is. */
  lemma FormatBalanceAndAddress()
    ensures FormatOutputs([Param("", Uint256), Param("", Other("address"))], [Num(2 * ONE_ETHER), Text("0xABC")])
              == Ok(["2.0", "0xABC"])
  {
    var declared := [Param("", Uint256), Param("", Other("address"))];
    var items := [Num(2 * ONE_ETHER), Text("0xABC")];
    FormatTwoEther();
    assert FormatItem(declared, 0, items[0]) == Ok("2.0");
    assert FormatItem(declared, 1, items[1]) == Ok("0xABC");
    var r := FormatOutputs(declared, items);
    assert r.Ok?;
    assert r.value == ["2.0", "0xABC"];
  }

  /** transfer(address to, uint256 amount), not payable: the amount is sent as entered, not scaled. */
  lemma TransferSendsAmountUnscaled(call: seq<Arg> -> CallOutcome)
    ensures var transfer := FunctionDescriptor("transfer", [Param("to", Other("address")), Param("amount", Uint256)], [], false);
            InitialForm(transfer) == ["", ""]
            && Invoke(transfer, false, ["0xDEF", "5"], call) == Settle([], call([Str("0xDEF"), Str("5")]))
  {
    var transfer := FunctionDescriptor("transfer", [Param("to", Other("address")), Param("amount", Uint256)], [], false);
    InvokeNotPayable(transfer, ["0xDEF", "5"], call);
    assert Literals(["0xDEF", "5"]) == [Str("0xDEF"), Str("5")];
  }

  /** purchase(), payable without inputs: two ether typed into the sendEther slot is attached as 2 * 10^18 wei. */
  method PurchaseAttachesEther() returns (shown: seq<string>)
    ensures shown == ["success"]
  {
    var purchase := FunctionDescriptor("purchase", [], [], true);
    var row := new FunctionRow(purchase);
    assert row.inputs == [] && row.Slots() == [SendEther];
    row.Edit(0, "2");
    assert row.inputs == ["2"];
    assert Decimal.NatToString(2) == "2";
    ParseEtherWhole(2);
    WeiPerEtherValue();
    var call := (sent: seq<Arg>) => if sent == [Ether(2 * ONE_ETHER)] then NonArrayResult else Threw;
    InvokePayableSlotFilled(purchase, row.inputs, call);
    assert Literals(row.inputs[..0]) == [];
    row.Click(call);
    shown := row.outputs;
  }

  /** A call that throws leaves the outputs of the previous click on display. */
  method FailedClickKeepsOutputs() returns (before: seq<string>, after: seq<string>)
    ensures before == after == ["SpaceCoin"]
  {
    var view := FunctionDescriptor("name", [], [Param("", Other("string"))], false);
    var row := new FunctionRow(view);
    row.Click((sent: seq<Arg>) => ArrayResult([Text("SpaceCoin")]));
    before := row.outputs;
    row.Click((sent: seq<Arg>) => Threw);
    after := row.outputs;
  }
}
