/** `createId` (server/server.js, server/main.js): a session or client id of
    `len` characters, each drawn from an alphabet by `Math.random`.  A draw is
    given as a fraction `num / den` in [0, 1), and `Math.random() * n | 0`
    truncates the product to an index. */
module Ids {

  /** The default alphabet: no `i`, `l`, `u` or `v`. */
  const DefaultChars := "abcdefghjkmnopqrstwxyz0123456789"
  const DefaultLength := 6

  /** One `Math.random()` result as the fraction `num / den`. */
  datatype Draw = Draw(num: nat, den: nat)

  predicate ValidDraw(d: Draw) {
    d.num < d.den
  }

  /** `Math.random() * n | 0`: the product truncated toward zero. */
  function IndexOf(d: Draw, n: nat): (i: nat)
    requires ValidDraw(d)
    ensures n > 0 ==> i < n
    ensures i * d.den <= d.num * n < (i + 1) * d.den
  {
    ScaledBelow(d.num, d.den, n);
    d.num * n / d.den
  }

  lemma ScaledBelow(num: nat, den: nat, n: nat)
    requires num < den
    ensures num * n / den <= n
    ensures n > 0 ==> num * n / den < n
  {
    assert num * n <= den * n by {
      assert (den - num) * n >= 0;
    }
    if n > 0 {
      assert num * n < den * n;
    }
  }

  /** `createId(len, chars)`: `len` rounds of `id += chars[draw]`, using the
      draws in order. */
  method CreateId(len: nat, chars: string, draws: seq<Draw>) returns (id: string)
    requires |chars| > 0
    requires |draws| >= len && forall k | 0 <= k < |draws| :: ValidDraw(draws[k])
    ensures |id| == len
    ensures forall k | 0 <= k < len :: id[k] == chars[IndexOf(draws[k], |chars|)]
    ensures forall k | 0 <= k < len :: id[k] in chars
  {
    id := "";
    var left := len;
    while left > 0
      invariant 0 <= left <= len
      invariant |id| == len - left
      invariant forall k | 0 <= k < |id| :: id[k] == chars[IndexOf(draws[k], |chars|)]
      decreases left
    {
      id := id + [chars[IndexOf(draws[len - left], |chars|)]];
      left := left - 1;
    }
  }

  /** `createId()` with its defaults: six characters of the default alphabet,
      so never one of the letters it leaves out. */
  method CreateDefaultId(draws: seq<Draw>) returns (id: string)
    requires |draws| >= DefaultLength && forall k | 0 <= k < |draws| :: ValidDraw(draws[k])
    ensures |id| == 6
    ensures forall k | 0 <= k < |id| :: id[k] in DefaultChars && id[k] !in "iluv"
  {
    id := CreateId(DefaultLength, DefaultChars, draws);
  }
}
