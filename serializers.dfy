/**
 * Request validation and response shapes: the decimal amount field, the
 * sign check of a withdrawal, the 36-character destination, and the
 * rendering of wallets and transactions.
 */
module Serializers {
  import opened Results
  import opened Errors
  import FixedPoint
  import Timestamp
  import Text
  import opened Models

  /** A decimal field with max_digits 12 and decimal_places 4; absent or unreadable is refused. */
  function DecimalInput(text: Option<string>): (r: Option<int>)
    ensures r.Some? ==> text.Some? && FixedPoint.Parse(text.value) == r && FixedPoint.Fits(r.value)
    ensures text.Some? && FixedPoint.Parse(text.value).Some? ==> r.Some?
  {
    if text.None? then None else FixedPoint.Parse(text.value)
  }

  /** The withdrawal amount check: a negative amount is the wrong amount; zero passes. */
  function ValidateAmount(value: int): (r: Result<int, ApiError>)
    ensures r.Ok? <==> value >= 0
    ensures r.Ok? ==> r.value == value
    ensures r.Err? ==> r.error == WrongAmount
  {
    if value < 0 then Err(WrongAmount) else Ok(value)
  }

  /** A character field of exactly 36 characters, required. */
  predicate NameInputAccepted(text: Option<string>)
  {
    text.Some? && |text.value| == NameLength
  }

  /** The deposit request: only the decimal format is checked, not the sign. */
  function ValidateDeposit(amount: Option<string>): (r: Result<int, ApiError>)
    ensures r.Ok? <==> amount.Some? && FixedPoint.Parse(amount.value).Some?
    ensures r.Ok? ==> FixedPoint.Parse(amount.value) == Some(r.value)
    ensures r.Err? ==> r.error == InvalidFields([Amount])
  {
    match DecimalInput(amount)
    case None => Err(InvalidFields([Amount]))
    case Some(a) => Ok(a)
  }

  /**
   * A deposit of `[sign]whole.fraction` is accepted exactly when the fraction has at
   * most four digits and the whole part is below 10^8; a fifth fractional digit is
   * refused, not rounded. The accepted amount is the whole part in units plus the
   * fraction in ten-thousandths, negated for '-'.
   */
  lemma {:induction false} DepositDecimal(sign: string, whole: string, fraction: string)
    requires sign == "" || sign == "+" || sign == "-"
    requires Text.AllDigits(whole) && Text.AllDigits(fraction) && (whole != "" || fraction != "")
    ensures ValidateDeposit(Some(sign + (whole + "." + fraction))) ==
      if |fraction| <= FixedPoint.Places && Text.ValueOf(whole) < Text.Pow10(FixedPoint.MaxWholeDigits)
      then Ok(FixedPoint.Signed(sign == "-", Text.ValueOf(whole) * FixedPoint.Scale + FixedPoint.FractionUnits(fraction)))
      else Err(InvalidFields([Amount]))
  {
    FixedPoint.ParseDecimal(sign, whole, fraction);
  }

  /** A deposit of `[sign]whole` without a point is a whole number of units, if below 10^8. */
  lemma {:induction false} DepositInteger(sign: string, whole: string)
    requires sign == "" || sign == "+" || sign == "-"
    requires Text.AllDigits(whole) && whole != ""
    ensures ValidateDeposit(Some(sign + whole)) ==
      if Text.ValueOf(whole) < Text.Pow10(FixedPoint.MaxWholeDigits)
      then Ok(FixedPoint.Signed(sign == "-", Text.ValueOf(whole) * FixedPoint.Scale))
      else Err(InvalidFields([Amount]))
  {
    FixedPoint.ParseInteger(sign, whole);
  }

  datatype Withdrawal = Withdrawal(amount: int, walletTo: Name)

  /**
   * The withdrawal request. The amount is validated first: an unreadable amount is
   * collected as a field error beside any error of `wallet_to`; a negative amount
   * stops validation at once with the wrong-amount error; otherwise `wallet_to`
   * must be 36 characters long.
   */
  function ValidateWithdrawal(amount: Option<string>, walletTo: Option<string>): (r: Result<Withdrawal, ApiError>)
    ensures r.Ok? <==>
      && amount.Some? && FixedPoint.Parse(amount.value).Some? && FixedPoint.Parse(amount.value).value >= 0
      && walletTo.Some? && |walletTo.value| == NameLength
    ensures r.Ok? ==>
      && FixedPoint.Parse(amount.value) == Some(r.value.amount)
      && walletTo == Some(r.value.walletTo)
    ensures r == Err(WrongAmount) <==>
      amount.Some? && FixedPoint.Parse(amount.value).Some? && FixedPoint.Parse(amount.value).value < 0
    ensures r.Err? && r.error.InvalidFields? ==>
      (Amount in r.error.fields <==> !(amount.Some? && FixedPoint.Parse(amount.value).Some?))
      && (WalletTo in r.error.fields <==> !NameInputAccepted(walletTo))
  {
    match DecimalInput(amount)
    case None =>
      Err(InvalidFields([Amount] + (if NameInputAccepted(walletTo) then [] else [WalletTo])))
    case Some(a) =>
      match ValidateAmount(a)
      case Err(e) => Err(e)
      case Ok(v) =>
        if NameInputAccepted(walletTo) then Ok(Withdrawal(v, walletTo.value))
        else Err(InvalidFields([WalletTo]))
  }

  /** A wallet in a response: its name and its balance at scale 4. */
  datatype WalletView = WalletView(name: string, balance: string)

  function ShowWallet(name: Name, balance: int): (v: WalletView)
    ensures v.name == name
    ensures FixedPoint.Canonical(v.balance)
    ensures FixedPoint.Fits(balance) ==> FixedPoint.Parse(v.balance) == Some(balance)
  {
    FixedPoint.RenderCanonical(balance);
    assert FixedPoint.Fits(balance) ==> FixedPoint.Parse(FixedPoint.Render(balance)) == Some(balance) by {
      if FixedPoint.Fits(balance) { FixedPoint.ParseRender(balance); }
    }
    WalletView(name, FixedPoint.Render(balance))
  }

  /** A new wallet shows a balance of '0.0000'. */
  lemma ShowNewWallet(name: Name)
    ensures ShowWallet(name, 0) == WalletView(name, "0.0000")
  {
    FixedPoint.RenderZero();
  }

  /**
   * A transaction in a response; `walletFrom` is omitted (None) for a deposit.
   */
  datatype TransactionView = TransactionView(created: string, amount: string,
                                             walletFrom: Option<string>, walletTo: string)

  function ShowTransaction(t: Transaction): (v: TransactionView)
    ensures v.walletFrom == t.walletFrom && v.walletTo == t.walletTo
    ensures Timestamp.Valid(t.created) ==> Timestamp.Parse(v.created) == Some(Timestamp.WholeSeconds(t.created))
    ensures FixedPoint.Canonical(v.amount)
    ensures FixedPoint.Fits(t.amount) ==> FixedPoint.Parse(v.amount) == Some(t.amount)
  {
    FixedPoint.RenderCanonical(t.amount);
    assert Timestamp.Valid(t.created) ==> Timestamp.Parse(Timestamp.Format(t.created)) == Some(Timestamp.WholeSeconds(t.created)) by {
      if Timestamp.Valid(t.created) { Timestamp.ParseFormat(t.created); }
    }
    assert FixedPoint.Fits(t.amount) ==> FixedPoint.Parse(FixedPoint.Render(t.amount)) == Some(t.amount) by {
      if FixedPoint.Fits(t.amount) { FixedPoint.ParseRender(t.amount); }
    }
    TransactionView(Timestamp.Format(t.created), FixedPoint.Render(t.amount), t.walletFrom, t.walletTo)
  }
}
