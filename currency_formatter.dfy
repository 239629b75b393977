/**
 * The signed amount shown next to a transaction
 * (src/utils/currencyFormatter.ts). The rupee formatting itself,
 * `formatCurrency`, is a parameter: any function from an amount to text.
 */
module CurrencyFormatter {
  import opened Common

  /** `Math.abs`. */
  function Abs(x: int): (r: nat)
    ensures r == x || r == -x
  {
    if x < 0 then -x else x
  }

  /** `formatTransactionAmount`: '+' for income, '-' for expense, then the formatted magnitude. */
  function FormatTransactionAmount(amount: int, kind: TxType, formatCurrency: nat -> string): (r: string)
    ensures |r| == |formatCurrency(Abs(amount))| + 1
    ensures r[0] == (if kind == Income then '+' else '-')
    ensures r[1..] == formatCurrency(Abs(amount))
  {
    var formatted := formatCurrency(Abs(amount));
    if kind == Income then ['+'] + formatted else ['-'] + formatted
  }

  /** The sign of the amount is ignored. */
  lemma SignIgnored(amount: int, kind: TxType, formatCurrency: nat -> string)
    ensures FormatTransactionAmount(amount, kind, formatCurrency) == FormatTransactionAmount(-amount, kind, formatCurrency)
  {
    assert Abs(amount) == Abs(-amount);
  }

  /** The kind can be read back from the first character, whatever the amounts. */
  lemma PrefixDeterminesKind(a: int, ka: TxType, b: int, kb: TxType, formatCurrency: nat -> string)
    requires FormatTransactionAmount(a, ka, formatCurrency) == FormatTransactionAmount(b, kb, formatCurrency)
    ensures ka == kb
  {
    assert FormatTransactionAmount(a, ka, formatCurrency)[0] == FormatTransactionAmount(b, kb, formatCurrency)[0];
  }

  /** With an injective `formatCurrency`, the text determines the magnitude as well. */
  lemma TextDeterminesMagnitude(a: int, ka: TxType, b: int, kb: TxType, formatCurrency: nat -> string)
    requires forall x: nat, y: nat :: formatCurrency(x) == formatCurrency(y) ==> x == y
    requires FormatTransactionAmount(a, ka, formatCurrency) == FormatTransactionAmount(b, kb, formatCurrency)
    ensures Abs(a) == Abs(b)
  {
    assert FormatTransactionAmount(a, ka, formatCurrency)[1..] == FormatTransactionAmount(b, kb, formatCurrency)[1..];
  }
}
