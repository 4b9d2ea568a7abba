/** The significance annotation drawn over a feature's box plot. */
module Significance {

  /** The threshold cascade from a corrected p-value to `ns`, `*`, `**` or `***`. */
  function Symbol(p: real): (symbol: string)
    ensures symbol == "ns" <==> p >= 0.05
    ensures symbol == "*" <==> 0.01 <= p < 0.05
    ensures symbol == "**" <==> 0.001 <= p < 0.01
    ensures symbol == "***" <==> p < 0.001
  {
    if p >= 0.05 then "ns"
    else if p >= 0.01 then "*"
    else if p >= 0.001 then "**"
    else "***"
  }

  /** The number of stars a symbol shows; `ns` shows none. */
  function Stars(symbol: string): nat
  {
    if symbol == "ns" then 0 else |symbol|
  }

  /** A smaller p-value never shows fewer stars. */
  lemma SymbolMonotone(p: real, q: real)
    requires p <= q
    ensures Stars(Symbol(q)) <= Stars(Symbol(p))
  {
  }

  /** Exactly one of the four symbols applies to every p-value, and it shows stars exactly below 0.05. */
  lemma SymbolExhaustive(p: real)
    ensures Symbol(p) in ["ns", "*", "**", "***"]
    ensures Stars(Symbol(p)) > 0 <==> p < 0.05
  {
  }
}
