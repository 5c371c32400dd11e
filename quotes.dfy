/**
 * Shared vocabulary of the two dashboard pipelines: the token listing, keyed
 * quote lookups, and exact decimal sums. Decimal strings of the application
 * are modelled as exact `real`s.
 */
module Quotes {

  datatype Option<+T> = None | Some(value: T)

  /** Listing status of a token; a delisted token is still shown in holdings. */
  datatype Status = Listed | Delisted

  /** One entry of the token listing (`listedAll` / `listed`). */
  datatype Descriptor = Descriptor(token: string, symbol: string, name: string, status: Status)

  /**
   * A quote lookup `find(key, token)`: a resolved quote, or zero when the
   * provider holds no entry for the token.
   */
  function Find(quotes: map<string, real>, token: string): (q: real)
    ensures token in quotes ==> q == quotes[token]
    ensures token !in quotes ==> q == 0.0
  {
    if token in quotes then quotes[token] else 0.0
  }

  /** Exact decimal sum of a sequence (`sum` of the math helpers). */
  function Sum(s: seq<real>): (r: real)
    ensures s == [] ==> r == 0.0
  {
    if s == [] then 0.0 else s[0] + Sum(s[1..])
  }

  /** A sum of non-negative terms is non-negative and bounds each term. */
  lemma {:induction false} SumBoundsTerms(s: seq<real>)
    requires forall i :: 0 <= i < |s| ==> s[i] >= 0.0
    ensures Sum(s) >= 0.0
    ensures forall i :: 0 <= i < |s| ==> s[i] <= Sum(s)
  {
    if s != [] {
      SumBoundsTerms(s[1..]);
      assert forall i :: 1 <= i < |s| ==> s[i] == s[1..][i - 1];
    }
  }

  lemma {:induction false} SumAppend(a: seq<real>, b: seq<real>)
    ensures Sum(a + b) == Sum(a) + Sum(b)
  {
    if a == [] {
      assert a + b == b;
    } else {
      assert (a + b)[1..] == a[1..] + b;
      SumAppend(a[1..], b);
    }
  }

  /** `some` over a list of flags: true iff at least one flag is set. */
  function Any(flags: seq<bool>): (r: bool)
    ensures r <==> exists i :: 0 <= i < |flags| && flags[i]
  {
    if flags == [] then false
    else if flags[0] then true
    else
      assert forall i :: 1 <= i < |flags| ==> flags[i] == flags[1..][i - 1];
      Any(flags[1..])
  }
}
