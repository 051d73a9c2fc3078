/**
 * Widget keys built with f-strings from loop indices: `f"{prefix}_{i}_{j}"` in the
 * film grid and `f"btn_{idx}"` / `f"rec_{idx}"` on the search and detail pages.
 * Streamlit requires the keys on one page to be distinct; these lemmas show they are.
 */
module Keys {

  predicate IsDigit(c: char) { '0' <= c <= '9' }

  function DigitChar(d: nat): (c: char)
    requires d < 10
    ensures IsDigit(c) && c as int - '0' as int == d
  {
    (d + '0' as int) as char
  }

  /** Python's `str(n)` for a non-negative integer: decimal digits, no leading zero. */
  function NatToString(n: nat): (s: string)
    ensures |s| > 0 && forall i :: 0 <= i < |s| ==> IsDigit(s[i])
    decreases n
  {
    if n < 10 then [DigitChar(n)] else NatToString(n / 10) + [DigitChar(n % 10)]
  }

  /** The value of a string of decimal digits. */
  function DigitsValue(s: string): nat
    requires forall i :: 0 <= i < |s| ==> IsDigit(s[i])
    decreases |s|
  {
    if s == [] then 0
    else
      assert IsDigit(s[|s| - 1]);
      DigitsValue(s[..|s| - 1]) * 10 + (s[|s| - 1] as int - '0' as int)
  }

  /** Reading back the decimal rendering gives the number. */
  lemma {:induction false} NatToStringRoundTrip(n: nat)
    ensures DigitsValue(NatToString(n)) == n
    decreases n
  {
    var s := NatToString(n);
    if n >= 10 {
      NatToStringRoundTrip(n / 10);
      assert s[..|s| - 1] == NatToString(n / 10);
    }
  }

  /** Distinct numbers render differently. */
  lemma NatToStringInjective(m: nat, n: nat)
    ensures NatToString(m) == NatToString(n) ==> m == n
  {
    NatToStringRoundTrip(m);
    NatToStringRoundTrip(n);
  }

  /** A button key made of a prefix and one index, joined by an underscore. */
  function IndexKey(prefix: string, idx: nat): string
  {
    prefix + "_" + NatToString(idx)
  }

  /** A grid button key made of a prefix, a row start and a column, joined by underscores. */
  function GridKey(prefix: string, i: nat, j: nat): string
  {
    prefix + "_" + NatToString(i) + "_" + NatToString(j)
  }

  /** Two keys made with the same prefix are equal exactly when their indices are. */
  lemma IndexKeyInjective(prefix: string, a: nat, b: nat)
    ensures IndexKey(prefix, a) == IndexKey(prefix, b) <==> a == b
  {
    if IndexKey(prefix, a) == IndexKey(prefix, b) {
      var k := |prefix| + 1;
      assert NatToString(a) == IndexKey(prefix, a)[k..];
      assert NatToString(b) == IndexKey(prefix, b)[k..];
      NatToStringInjective(a, b);
    }
  }

  /**
   * Splitting `x + "_" + y` at its first underscore: when `x` and `x'` have no underscore,
   * `x + "_" + y == x' + "_" + y'` forces `x == x'` and `y == y'`.
   */
  lemma SplitAtUnderscore(x: string, y: string, x': string, y': string)
    requires forall i :: 0 <= i < |x| ==> x[i] != '_'
    requires forall i :: 0 <= i < |x'| ==> x'[i] != '_'
    requires x + "_" + y == x' + "_" + y'
    ensures x == x' && y == y'
  {
    var w, w' := x + "_" + y, x' + "_" + y';
    assert w[|x|] == '_' && forall k :: 0 <= k < |x| ==> w[k] != '_';
    assert w'[|x'|] == '_' && forall k :: 0 <= k < |x'| ==> w'[k] != '_';
    assert |x| == |x'|;
    assert x == w[..|x|] && x' == w'[..|x'|];
    assert y == w[|x| + 1..] && y' == w'[|x'| + 1..];
  }

  /** Two grid keys made with the same prefix are equal exactly when both indices are. */
  lemma GridKeyInjective(prefix: string, i: nat, j: nat, i': nat, j': nat)
    ensures GridKey(prefix, i, j) == GridKey(prefix, i', j') <==> i == i' && j == j'
  {
    if GridKey(prefix, i, j) == GridKey(prefix, i', j') {
      var k := |prefix| + 1;
      var rest, rest' := NatToString(i) + "_" + NatToString(j), NatToString(i') + "_" + NatToString(j');
      assert GridKey(prefix, i, j) == prefix + "_" + rest;
      assert GridKey(prefix, i', j') == prefix + "_" + rest';
      assert rest == GridKey(prefix, i, j)[k..];
      assert rest' == GridKey(prefix, i', j')[k..];
      SplitAtUnderscore(NatToString(i), NatToString(j), NatToString(i'), NatToString(j'));
      NatToStringInjective(i, i');
      NatToStringInjective(j, j');
    }
  }
}
